/**
 * Schema registration (src/schema.py `KafkaSchema`) and the producer's check-then-create setup
 * (src/producer.py:30-34). The registry is a map from subject names to the schema versions
 * registered under them; the HTTP client is outside the model, so each registration receives
 * the error the registry answered with, if any.
 */
module Schema {
  import opened Wrappers

  datatype SchemaType = Avro

  /** A schema as `Schema(schema_str=..., schema_type=...)` describes it. */
  datatype RegisteredSchema = RegisteredSchema(text: string, kind: SchemaType)

  /** Subjects and the versions registered under each, oldest first. */
  type Registry = map<string, seq<RegisteredSchema>>

  /** What `register_schema` raised: a `SchemaRegistryError` with its HTTP status, or another exception. */
  datatype RegistryError = HttpStatus(code: int) | OtherError

  /** HTTP 409 Conflict, which the code reads as "already registered". */
  const Conflict := 409

  /** `get_subjects` lists every subject of the registry and nothing else. */
  predicate Lists(subjects: seq<string>, reg: Registry) {
    && (forall i :: 0 <= i < |subjects| ==> subjects[i] in reg)
    && (forall name :: name in reg ==> name in subjects)
  }

  /** `check_schema_existence`: scans the subject list for the name; the `for ... else` answers false when the scan ends. */
  function CheckSchemaExistence(subjects: seq<string>, name: string): (found: bool)
    ensures found <==> name in subjects
    ensures subjects == [] ==> !found
  {
    if subjects == [] then false
    else if subjects[0] == name then true
    else CheckSchemaExistence(subjects[1..], name)
  }

  /**
   * What the registry does when it accepts a registration: a schema already registered under
   * the subject is found again; otherwise it becomes the subject's newest version.
   */
  function Register(reg: Registry, name: string, s: RegisteredSchema): (r: Registry)
    ensures name in r && s in r[name]
    ensures forall other :: other != name ==> (other in r <==> other in reg) && (other in reg ==> r[other] == reg[other])
    ensures name in reg && s in reg[name] ==> r == reg
    ensures name !in reg ==> r[name] == [s]
  {
    if name in reg && s in reg[name] then reg
    else reg[name := (if name in reg then reg[name] else []) + [s]]
  }

  /**
   * `create_schema`: registers the text as an Avro schema under the subject. A 409 answer is
   * swallowed and leaves the registry as it was; every other error propagates.
   */
  function CreateSchema(reg: Registry, name: string, text: string, answer: Option<RegistryError>): (r: Result<Registry, RegistryError>)
    ensures answer.None? ==> r.Ok? && name in r.value && RegisteredSchema(text, Avro) in r.value[name]
    ensures answer == Some(HttpStatus(Conflict)) ==> r == Ok(reg)
    ensures answer.Some? && answer.value != HttpStatus(Conflict) ==> r == Err(answer.value)
    // registering never drops or rewrites another subject
    ensures r.Ok? ==> forall other :: other != name && other in reg ==> other in r.value && r.value[other] == reg[other]
  {
    match answer
    case None => Ok(Register(reg, name, RegisteredSchema(text, Avro)))
    case Some(e) => if e == HttpStatus(Conflict) then Ok(reg) else Err(e)
  }

  /** The producer's setup: create the subject only when the listing does not show it. */
  function EnsureSchema(reg: Registry, name: string, text: string, subjects: seq<string>, answer: Option<RegistryError>): (r: Result<Registry, RegistryError>)
    requires Lists(subjects, reg)
    ensures name in reg ==> r == Ok(reg)
    ensures name !in reg && answer.None? ==> r == Ok(reg[name := [RegisteredSchema(text, Avro)]])
  {
    if CheckSchemaExistence(subjects, name) then Ok(reg)
    else CreateSchema(reg, name, text, answer)
  }

  /** Registering the same schema twice under a subject is the same as registering it once. */
  lemma RegisterIdempotent(reg: Registry, name: string, s: RegisteredSchema)
    ensures Register(Register(reg, name, s), name, s) == Register(reg, name, s)
  {
  }

  /**
   * Running the setup twice, the second time against a fresh listing of the registry, leaves
   * exactly one version under the subject and raises nothing, whatever the registry would
   * answer the second time.
   */
  lemma SetupTwice(reg: Registry, name: string, text: string, first: seq<string>, second: seq<string>,
                   answer1: Option<RegistryError>, answer2: Option<RegistryError>)
    requires Lists(first, reg)
    requires name !in reg && answer1.None?
    requires Lists(second, reg[name := [RegisteredSchema(text, Avro)]])
    ensures var once := EnsureSchema(reg, name, text, first, answer1);
            && once == Ok(reg[name := [RegisteredSchema(text, Avro)]])
            && EnsureSchema(once.value, name, text, second, answer2) == once
            && |once.value[name]| == 1
  {
  }
}
