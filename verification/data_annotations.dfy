/** The four `System.ComponentModel.DataAnnotations` attributes the request
    classes use, as model-binding checks them: every attribute of a property is
    checked on its own, and each failing one adds an entry to ModelState. */
module DataAnnotations {
  import opened Wrappers
  import Strings

  /** The two patterns in use: `^[0-9]*$` and `^[A-Z]*$`. */
  datatype Pattern = Digits | UpperLatin

  datatype Attribute =
    | Required
    | MaxLength(max: nat)
    | StringLength(limit: nat, errorMessage: Option<string>)
    | RegularExpression(pattern: Pattern)

  /** One ModelState entry: the property and the attribute it failed. */
  datatype FieldError = FieldError(field: string, attribute: Attribute)

  predicate IsAsciiDigit(c: char) { '0' <= c <= '9' }
  predicate IsAsciiUpper(c: char) { 'A' <= c <= 'Z' }

  /** `pattern` matches the whole of `s`: the attribute also demands that the
      match start at 0 and span the whole string, so the `$` that would accept
      a trailing newline does not let one through. */
  predicate Matches(pattern: Pattern, s: string) {
    match pattern
    case Digits => forall i :: 0 <= i < |s| ==> IsAsciiDigit(s[i])
    case UpperLatin => forall i :: 0 <= i < |s| ==> IsAsciiUpper(s[i])
  }

  /** Whether the attribute accepts the value. `[Required]` refuses null and
      blank strings; the others accept null, and `[RegularExpression]` also
      accepts the empty string. The two length attributes compare
      `String.Length`, a count of UTF-16 code units. */
  predicate Holds(a: Attribute, v: Option<string>) {
    match a
    case Required => !Strings.IsNullOrWhiteSpace(v)
    case MaxLength(n) => v.None? || Strings.Utf16Length(v.value) <= n
    case StringLength(n, _) => v.None? || Strings.Utf16Length(v.value) <= n
    case RegularExpression(p) => v.None? || v.value == "" || Matches(p, v.value)
  }

  /** The entries `field`, holding `v`, adds to ModelState: one per failing
      attribute, in declaration order. */
  function Check(field: string, attributes: seq<Attribute>, v: Option<string>): (errors: seq<FieldError>)
    ensures |errors| <= |attributes|
    ensures forall e :: e in errors ==> e.field == field && e.attribute in attributes && !Holds(e.attribute, v)
    ensures forall a :: a in attributes && !Holds(a, v) ==> FieldError(field, a) in errors
    ensures errors == [] <==> forall i :: 0 <= i < |attributes| ==> Holds(attributes[i], v)
  {
    if |attributes| == 0 then []
    else
      var rest := Check(field, attributes[1..], v);
      assert forall a :: a in attributes[1..] ==> a in attributes;
      if Holds(attributes[0], v) then rest else [FieldError(field, attributes[0])] + rest
  }

  /** A property with two attributes is valid exactly when both accept it. */
  lemma {:induction false} CheckTwo(field: string, a: Attribute, b: Attribute, v: Option<string>)
    ensures Check(field, [a, b], v) == [] <==> Holds(a, v) && Holds(b, v)
  {
    var s := [a, b];
    assert s[0] == a && s[1] == b;
  }

  /** A property with three attributes is valid exactly when all three accept it. */
  lemma {:induction false} CheckThree(field: string, a: Attribute, b: Attribute, c: Attribute, v: Option<string>)
    ensures Check(field, [a, b, c], v) == [] <==> Holds(a, v) && Holds(b, v) && Holds(c, v)
  {
    var s := [a, b, c];
    assert s[0] == a && s[1] == b && s[2] == c;
  }
}
