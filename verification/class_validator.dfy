/**
 * The declarative field rules both the Category entity and the
 * create-category input rely on, stated as explicit predicates over
 * loosely typed values, with the default English messages the rules
 * report.
 */
module ClassValidator {

  /** A loosely typed value as it reaches a validator. */
  datatype Value = Undefined | Null | Str(s: string) | Num(n: int) | Bool(b: bool)

  /** Field name to the messages of the rules it breaks; a field breaking none is absent. */
  type FieldErrors = map<string, seq<string>>

  /** `null` or `undefined`: the values an optional field skips. */
  predicate Nullish(v: Value) {
    v.Undefined? || v.Null?
  }

  /** `IsNotEmpty`: anything but `""`, `null` and `undefined`. */
  predicate IsNotEmpty(v: Value) {
    !Nullish(v) && v != Str("")
  }

  /** `IsString`. */
  predicate IsString(v: Value) {
    v.Str?
  }

  /** `IsBoolean`. */
  predicate IsBoolean(v: Value) {
    v.Bool?
  }

  /** `MaxLength(max)`: a string of at most `max` characters; any non-string fails. */
  predicate MaxLength(v: Value, max: nat) {
    v.Str? && |v.s| <= max
  }

  function NotEmptyMessage(property: string): string {
    property + " should not be empty"
  }

  function StringMessage(property: string): string {
    property + " must be a string"
  }

  function BooleanMessage(property: string): string {
    property + " must be a boolean value"
  }

  /** The message of `MaxLength(255)`, the only maximum length in use. */
  function MaxLength255Message(property: string): string {
    property + " must be shorter than or equal to 255 characters"
  }

  /** The messages of a field with `IsOptional` and one further rule. */
  function OptionalRule(v: Value, holds: bool, message: string): (r: seq<string>)
    ensures r == [] <==> Nullish(v) || holds
    ensures r != [] ==> r == [message]
  {
    if Nullish(v) || holds then [] else [message]
  }

  /** Adds a field's messages to the error map when there are any. */
  function AddField(errors: FieldErrors, field: string, messages: seq<string>): (r: FieldErrors)
    ensures r.Keys == if messages == [] then errors.Keys else errors.Keys + {field}
    ensures messages != [] ==> r[field] == messages
    ensures forall f :: f in errors && f != field ==> f in r && r[f] == errors[f]
  {
    if messages == [] then errors else errors[field := messages]
  }
}
