/** The pattern interpolator the slug generator calls (`Text::insert`,
    src/Utility/Slug.php:23): each `:name` placeholder, where the name is a
    maximal run of letters, digits and underscores, is replaced by the
    record's value for that name; all other text is copied unchanged, and
    substituted values are not scanned again. */
module Text {
  import opened CharClass

  /** The record handed to the interpolator: field name to field value. */
  type Record = map<string, string>

  /** `p` opens with a placeholder: a colon followed by a name character. */
  predicate StartsPlaceholder(p: string) {
    |p| > 1 && p[0] == ':' && IsIdentChar(p[1])
  }

  /** Length of the placeholder at the head of `p`, colon included. */
  function PlaceholderLength(p: string): (n: nat)
    requires StartsPlaceholder(p)
    ensures 2 <= n <= |p|
    ensures forall i :: 1 <= i < n ==> IsIdentChar(p[i])
    ensures n == |p| || !IsIdentChar(p[n])
  {
    1 + Span(p[1..], NameChar)
  }

  /** A placeholder name: a non-empty run of name characters. */
  predicate IsName(k: string) {
    k != [] && forall i :: 0 <= i < |k| ==> IsIdentChar(k[i])
  }

  /** What the placeholder at the head of `p` becomes: the record's value
      for its name, or the placeholder itself when the record has no such
      field. */
  function Substitute(p: string, data: Record): (r: string)
    requires StartsPlaceholder(p)
    ensures p[1..PlaceholderLength(p)] in data ==> r == data[p[1..PlaceholderLength(p)]]
    ensures p[1..PlaceholderLength(p)] !in data ==> r == p[..PlaceholderLength(p)]
  {
    var key := p[1..PlaceholderLength(p)];
    if key in data then data[key] else p[..PlaceholderLength(p)]
  }

  function Insert(pattern: string, data: Record): string
    decreases |pattern|
  {
    if pattern == [] then []
    else if StartsPlaceholder(pattern) then
      Substitute(pattern, data) + Insert(pattern[PlaceholderLength(pattern)..], data)
    else [pattern[0]] + Insert(pattern[1..], data)
  }

  /** The names of the placeholders that occur in `pattern`. */
  function Placeholders(pattern: string): (ks: set<string>)
    ensures forall k :: k in ks ==> IsName(k)
    decreases |pattern|
  {
    if pattern == [] then {}
    else if StartsPlaceholder(pattern) then
      var n := PlaceholderLength(pattern);
      {pattern[1..n]} + Placeholders(pattern[n..])
    else Placeholders(pattern[1..])
  }

  /** A pattern none of whose placeholders names a field of the record comes
      back unchanged; in particular a plain string, and any pattern given an
      empty record. */
  lemma {:induction false} InsertLiteral(pattern: string, data: Record)
    requires Placeholders(pattern) !! data.Keys
    ensures Insert(pattern, data) == pattern
    decreases |pattern|
  {
    if pattern == [] {
    } else if StartsPlaceholder(pattern) {
      var n := PlaceholderLength(pattern);
      InsertLiteral(pattern[n..], data);
      assert pattern[1..n] !in data;
      assert pattern == pattern[..n] + pattern[n..];
    } else {
      InsertLiteral(pattern[1..], data);
      assert pattern == [pattern[0]] + pattern[1..];
    }
  }

  /** With an empty record the pattern comes back as it is. */
  lemma InsertEmpty(pattern: string)
    ensures Insert(pattern, map[]) == pattern
  {
    InsertLiteral(pattern, map[]);
  }

  /** The result depends only on the fields the pattern names. */
  lemma {:induction false} InsertIgnoresUnusedField(pattern: string, data: Record, k: string, v: string)
    requires k !in Placeholders(pattern)
    ensures Insert(pattern, data[k := v]) == Insert(pattern, data)
    decreases |pattern|
  {
    if pattern == [] {
    } else if StartsPlaceholder(pattern) {
      var n := PlaceholderLength(pattern);
      InsertIgnoresUnusedField(pattern[n..], data, k, v);
    } else {
      InsertIgnoresUnusedField(pattern[1..], data, k, v);
    }
  }

  /** Interpolation works piece by piece, as long as the cut does not fall
      inside a placeholder name. */
  lemma {:induction false} InsertConcat(a: string, b: string, data: Record)
    requires b == [] || !IsIdentChar(b[0])
    ensures Insert(a + b, data) == Insert(a, data) + Insert(b, data)
    decreases |a|, 1
  {
    if a == [] {
      assert a + b == b;
    } else if StartsPlaceholder(a) {
      InsertConcatAtPlaceholder(a, b, data);
    } else {
      InsertConcatAtLiteral(a, b, data);
    }
  }

  lemma {:induction false} InsertConcatAtPlaceholder(a: string, b: string, data: Record)
    requires StartsPlaceholder(a)
    requires b == [] || !IsIdentChar(b[0])
    ensures Insert(a + b, data) == Insert(a, data) + Insert(b, data)
    decreases |a|, 0
  {
    PlaceholderExtends(a, b, data);
    InsertConcat(a[PlaceholderLength(a)..], b, data);
  }

  lemma {:induction false} InsertConcatAtLiteral(a: string, b: string, data: Record)
    requires a != [] && !StartsPlaceholder(a)
    requires b == [] || !IsIdentChar(b[0])
    ensures Insert(a + b, data) == Insert(a, data) + Insert(b, data)
    decreases |a|, 0
  {
    LiteralExtends(a, b);
    InsertConcat(a[1..], b, data);
  }

  /** A placeholder at the head of `a` is the same placeholder in `a + b`. */
  lemma PlaceholderExtends(a: string, b: string, data: Record)
    requires StartsPlaceholder(a)
    requires b == [] || !IsIdentChar(b[0])
    ensures StartsPlaceholder(a + b)
    ensures PlaceholderLength(a + b) == PlaceholderLength(a)
    ensures Substitute(a + b, data) == Substitute(a, data)
    ensures (a + b)[PlaceholderLength(a)..] == a[PlaceholderLength(a)..] + b
  {
    assert (a + b)[1..] == a[1..] + b;
    SpanConcat(a[1..], b, NameChar);
    var n := PlaceholderLength(a);
    assert (a + b)[..n] == a[..n];
    assert (a + b)[1..n] == a[1..n];
  }

  /** A character of `a` that does not open a placeholder does not open one
      in `a + b` either. */
  lemma LiteralExtends(a: string, b: string)
    requires a != [] && !StartsPlaceholder(a)
    requires b == [] || !IsIdentChar(b[0])
    ensures !StartsPlaceholder(a + b)
    ensures (a + b)[0] == a[0] && (a + b)[1..] == a[1..] + b
  {
  }

  /** A lone placeholder is replaced by its field's value. */
  lemma InsertPlaceholder(k: string, data: Record)
    requires IsName(k)
    requires k in data
    ensures Insert([':'] + k, data) == data[k]
  {
    var p := [':'] + k;
    assert p[1..] == k;
    assert Span(k, NameChar) == |k|;
    assert p[1..PlaceholderLength(p)] == k;
    assert p[|p|..] == [];
  }

  /** A lone placeholder names exactly its field. */
  lemma PlaceholdersOfPlaceholder(k: string)
    requires IsName(k)
    ensures Placeholders([':'] + k) == {k}
  {
    var p := [':'] + k;
    assert p[1..] == k;
    assert Span(k, NameChar) == |k|;
    assert p[1..PlaceholderLength(p)] == k;
    assert p[|p|..] == [];
  }

  /** Two placeholders with one other character between them interpolate
      to their two values around that character. */
  lemma InsertTwoPlaceholders(k1: string, d: char, k2: string, data: Record)
    requires IsName(k1) && k1 in data
    requires IsName(k2) && k2 in data
    requires !IsIdentChar(d)
    ensures Insert([':'] + k1 + [d] + [':'] + k2, data) == data[k1] + [d] + data[k2]
  {
    var rest := [d] + [':'] + k2;
    assert [':'] + k1 + [d] + [':'] + k2 == ([':'] + k1) + rest;
    InsertPlaceholder(k1, data);
    InsertAfterCharacter(d, k2, data);
    InsertConcat([':'] + k1, rest, data);
  }

  /** A character before a placeholder is kept, and the placeholder
      becomes its value. */
  lemma InsertAfterCharacter(d: char, k: string, data: Record)
    requires IsName(k) && k in data
    requires !IsIdentChar(d)
    ensures Insert([d] + [':'] + k, data) == [d] + data[k]
  {
    var rest := [d] + [':'] + k;
    assert !StartsPlaceholder(rest) && rest[1..] == [':'] + k;
    InsertPlaceholder(k, data);
  }
}
