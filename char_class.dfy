/** ASCII character classes, the leading-run measure shared by the
    normaliser and the interpolator, and PHP's `strtolower`. */
module CharClass {

  predicate IsUpper(c: char) { 'A' <= c <= 'Z' }

  predicate IsLower(c: char) { 'a' <= c <= 'z' }

  predicate IsDigit(c: char) { '0' <= c <= '9' }

  /** A slug-friendly character: an ASCII letter or digit. */
  predicate IsAlnum(c: char) { IsUpper(c) || IsLower(c) || IsDigit(c) }

  /** A character that may continue a `:placeholder` name. */
  predicate IsIdentChar(c: char) { IsAlnum(c) || c == '_' }

  /** The two character classes whose runs the slug pipeline measures. */
  datatype Class = Alphanumeric | NameChar

  predicate InClass(cls: Class, c: char) {
    match cls
    case Alphanumeric => IsAlnum(c)
    case NameChar => IsIdentChar(c)
  }

  /** Length of the longest prefix of `s` whose characters are all in the class. */
  function Span(s: string, cls: Class): (n: nat)
    ensures n <= |s|
    ensures forall i :: 0 <= i < n ==> InClass(cls, s[i])
    ensures n == |s| || !InClass(cls, s[n])
  {
    if s == [] || !InClass(cls, s[0]) then 0 else 1 + Span(s[1..], cls)
  }

  /** A run that stops at the end of `a` stops at the same place in `a + b`
      when `b` does not continue it. */
  lemma {:induction false} SpanConcat(a: string, b: string, cls: Class)
    requires b == [] || !InClass(cls, b[0])
    ensures Span(a + b, cls) == Span(a, cls)
  {
    if a == [] {
    } else if InClass(cls, a[0]) {
      assert (a + b)[1..] == a[1..] + b;
      SpanConcat(a[1..], b, cls);
    }
  }

  /** `strtolower` on one character: only `A`..`Z` change. */
  function ToLower(c: char): (r: char)
    ensures !IsUpper(r)
    ensures IsAlnum(r) == IsAlnum(c)
    ensures IsUpper(c) ==> IsLower(r) && r as int - 'a' as int == c as int - 'A' as int
    ensures !IsUpper(c) ==> r == c
  {
    if IsUpper(c) then (c as int - 'A' as int + 'a' as int) as char else c
  }

  /** `strtolower` on a string (src/Utility/Slug.php:25). */
  function Lower(s: string): (r: string)
    ensures |r| == |s|
    ensures forall i :: 0 <= i < |r| ==> !IsUpper(r[i])
    ensures forall i :: 0 <= i < |r| ==> IsAlnum(r[i]) == IsAlnum(s[i])
    ensures forall i :: 0 <= i < |r| && !IsUpper(s[i]) ==> r[i] == s[i]
    ensures forall i :: 0 <= i < |r| && IsUpper(s[i]) ==> IsLower(r[i])
    ensures forall i :: 0 <= i < |r| && IsUpper(s[i]) ==> r[i] as int - 'a' as int == s[i] as int - 'A' as int
  {
    seq(|s|, i requires 0 <= i < |s| => ToLower(s[i]))
  }

  /** A string with no upper-case letter is its own lower-case form. */
  lemma LowerOfLower(s: string)
    requires forall i :: 0 <= i < |s| ==> !IsUpper(s[i])
    ensures Lower(s) == s
  {
  }

  /** Lower-casing works character by character, so it splits over a
      concatenation. */
  lemma LowerConcat(a: string, b: string)
    ensures Lower(a + b) == Lower(a) + Lower(b)
  {
  }

  /** The letters and digits of `s`, in order. */
  function Alnums(s: string): (r: string)
    ensures |r| <= |s|
    ensures forall i :: 0 <= i < |r| ==> IsAlnum(r[i])
  {
    if s == [] then []
    else if IsAlnum(s[0]) then [s[0]] + Alnums(s[1..])
    else Alnums(s[1..])
  }

  lemma {:induction false} AlnumsConcat(a: string, b: string)
    ensures Alnums(a + b) == Alnums(a) + Alnums(b)
  {
    if a != [] {
      assert (a + b)[0] == a[0] && (a + b)[1..] == a[1..] + b;
      AlnumsConcat(a[1..], b);
    } else {
      assert a + b == b;
    }
  }

  /** Filtering keeps a string made only of letters and digits whole. */
  lemma {:induction false} AlnumsOfAlnum(s: string)
    requires forall i :: 0 <= i < |s| ==> IsAlnum(s[i])
    ensures Alnums(s) == s
  {
    if s != [] {
      AlnumsOfAlnum(s[1..]);
    }
  }

  /** Lower-casing and filtering out non-alphanumerics commute. */
  lemma {:induction false} AlnumsOfLower(s: string)
    ensures Alnums(Lower(s)) == Lower(Alnums(s))
  {
    if s != [] {
      assert Lower(s) == [ToLower(s[0])] + Lower(s[1..]);
      AlnumsOfLower(s[1..]);
      if IsAlnum(s[0]) {
        LowerConcat([s[0]], Alnums(s[1..]));
      }
    }
  }
}
