/** The meaning of the class-validator decorators the DTOs use, under the
    global validation pipe of backend/src/main.ts (`whitelist` and
    `forbidNonWhitelisted` both on). A DTO is a list of declared properties,
    each with its decorators; a request body is accepted when no decorator fails
    and no undeclared property is present. */
module ClassValidator {
  import opened Wrappers

  /** A request-body value as the pipe sees it: a string, `null`, or anything else. */
  datatype JsonValue = JString(s: string) | JNull | JOther

  /** A JSON object body; a missing key is `undefined`. */
  type Body = map<string, JsonValue>

  datatype Constraint = IsString | IsNotEmpty | MinLength(min: nat) | MaxLength(max: nat)

  /** A declared DTO property; `optional` is the `@IsOptional()` decorator. */
  datatype Property = Property(name: string, optional: bool, constraints: seq<Constraint>)

  datatype Violation = Failed(property: string, constraint: Constraint) | NotWhitelisted(property: string)

  function Lookup(body: Body, name: string): Option<JsonValue> {
    if name in body then Some(body[name]) else None
  }

  /** Whether one decorator accepts a value (`None` is `undefined`). */
  predicate Holds(c: Constraint, v: Option<JsonValue>) {
    match c
    case IsString => v.Some? && v.value.JString?
    case IsNotEmpty => v.Some? && v.value != JNull && v.value != JString("")
    case MinLength(n) => v.Some? && v.value.JString? && |v.value.s| >= n
    case MaxLength(n) => v.Some? && v.value.JString? && |v.value.s| <= n
  }

  /** `@IsOptional()` skips every other decorator for `null` and `undefined`. */
  predicate Skipped(p: Property, body: Body) {
    p.optional && (Lookup(body, p.name) == None || Lookup(body, p.name) == Some(JNull))
  }

  function DeclaredNames(schema: seq<Property>): set<string> {
    set p | p in schema :: p.name
  }

  /** Every failing decorator and every undeclared property of `body`. */
  function Validate(schema: seq<Property>, body: Body): set<Violation> {
    (set p, c | p in schema && c in p.constraints && !Skipped(p, body) && !Holds(c, Lookup(body, p.name))
       :: Failed(p.name, c))
    + (set k | k in body.Keys && k !in DeclaredNames(schema) :: NotWhitelisted(k))
  }

  predicate Accepts(schema: seq<Property>, body: Body) {
    Validate(schema, body) == {}
  }

  /** A body is accepted exactly when it declares nothing extra and every
      non-skipped property satisfies all of its decorators. */
  lemma AcceptsIff(schema: seq<Property>, body: Body)
    ensures Accepts(schema, body)
        <==> body.Keys <= DeclaredNames(schema)
             && forall p, c | p in schema && c in p.constraints && !Skipped(p, body) :: Holds(c, Lookup(body, p.name))
  {
    if Accepts(schema, body) {
      forall k | k in body.Keys ensures k in DeclaredNames(schema) {
        assert NotWhitelisted(k) !in Validate(schema, body);
      }
      forall p, c | p in schema && c in p.constraints && !Skipped(p, body) ensures Holds(c, Lookup(body, p.name)) {
        assert Failed(p.name, c) !in Validate(schema, body);
      }
    }
  }

  /** `name` holds a string whose length lies in `min..max`. */
  predicate StringOfLength(body: Body, name: string, min: nat, max: nat) {
    name in body && body[name].JString? && min <= |body[name].s| <= max
  }
}
