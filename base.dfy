/** Values shared by both controllers: optional values (a C# reference that may be
    null), the entries of a validation-error response body, and the few .NET string
    operations the controllers and the validation attributes rely on. */
module Base {

  /** A C# string property that may be null, or a nullable `DateTime?`. */
  datatype Option<T> = None | Some(value: T)

  /** The `message` of a 400 answer to a request that fails validation. */
  const ValidationFailedMessage := "Validation failed"

  /** One element of the `errors` array of a BadRequest body: `{ field, message }`. */
  datatype FieldError = FieldError(field: string, message: string)

  /** The LINQ `Select` that turns validation messages into response entries, each
      tagged with the field that `fieldOf` picks for its message. */
  function FieldErrors(messages: seq<string>, fieldOf: string -> string): (errors: seq<FieldError>)
    ensures |errors| == |messages|
    ensures forall i :: 0 <= i < |messages| ==> errors[i] == FieldError(fieldOf(messages[i]), messages[i])
  {
    if messages == [] then []
    else [FieldError(fieldOf(messages[0]), messages[0])] + FieldErrors(messages[1..], fieldOf)
  }

  /** .NET `char.IsWhiteSpace`: the control characters U+0009 to U+000D and U+0085,
      and the Unicode space, line and paragraph separators. */
  predicate IsWhiteSpace(c: char)
  {
    || ('\U{0009}' <= c <= '\U{000D}')
    || c == ' ' || c == '\U{0085}' || c == '\U{00A0}' || c == '\U{1680}'
    || ('\U{2000}' <= c <= '\U{200A}')
    || c == '\U{2028}' || c == '\U{2029}' || c == '\U{202F}' || c == '\U{205F}' || c == '\U{3000}'
  }

  /** True of the empty string and of a string made only of white space. */
  predicate IsBlank(s: string)
  {
    forall i :: 0 <= i < |s| ==> IsWhiteSpace(s[i])
  }

  /** .NET `string.IsNullOrWhiteSpace`, which is what `[Required]` rejects. */
  predicate IsNullOrWhiteSpace(s: Option<string>)
  {
    s.None? || IsBlank(s.value)
  }

  /** .NET `string.Length`: the number of UTF-16 code units, so a character outside
      the Basic Multilingual Plane counts twice. */
  function Utf16Length(s: string): (n: nat)
    ensures |s| <= n <= 2 * |s|
    ensures (forall i :: 0 <= i < |s| ==> s[i] as int <= 0xFFFF) ==> n == |s|
  {
    if s == [] then 0
    else (if s[0] as int > 0xFFFF then 2 else 1) + Utf16Length(s[1..])
  }

  /** `sub` occurs in `s` starting at index `i`. */
  predicate OccursAt(s: string, sub: string, i: int)
  {
    0 <= i && i + |sub| <= |s| && s[i..i + |sub|] == sub
  }

  /** .NET `string.Contains(string)`: ordinal, case-sensitive substring search. */
  predicate Contains(s: string, sub: string)
  {
    exists i | 0 <= i <= |s| - |sub| :: OccursAt(s, sub, i)
  }

  lemma OccursContains(s: string, sub: string, i: int)
    requires OccursAt(s, sub, i)
    ensures Contains(s, sub)
  {
  }

  /** An occurrence of `sub` in `a` is one in every extension of `a`. */
  lemma ContainsInPrefix(a: string, b: string, sub: string)
    requires Contains(a, sub)
    ensures Contains(a + b, sub)
  {
    var i :| 0 <= i <= |a| - |sub| && OccursAt(a, sub, i);
    assert (a + b)[i..i + |sub|] == a[i..i + |sub|];
    assert OccursAt(a + b, sub, i);
  }

  /** An occurrence of `sub` in `b` is one in every text that ends with `b`. */
  lemma ContainsInSuffix(a: string, b: string, sub: string)
    requires Contains(b, sub)
    ensures Contains(a + b, sub)
  {
    var i :| 0 <= i <= |b| - |sub| && OccursAt(b, sub, i);
    assert (a + b)[|a| + i..|a| + i + |sub|] == b[i..i + |sub|];
    assert OccursAt(a + b, sub, |a| + i);
  }

  /** A text that contains `sub` contains its first character; so one that lacks
      that character cannot contain `sub`, which is how the field mappings are shown
      to skip a keyword. */
  lemma ContainsNeedsFirstChar(s: string, sub: string)
    requires |sub| > 0
    ensures Contains(s, sub) ==> sub[0] in s
  {
    if Contains(s, sub) {
      var i :| 0 <= i <= |s| - |sub| && OccursAt(s, sub, i);
      assert s[i..i + |sub|][0] == s[i];
    }
  }
}
