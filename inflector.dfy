/** The text normaliser the slug generator calls (`Inflector::slug`,
    src/Utility/Slug.php:24): every maximal run of letters and digits is a
    token, and the tokens are joined by the replacement character, so runs
    of anything else collapse to one separator and none is left at either
    end. Case is kept; lower-casing is a separate step. */
module Inflector {
  import opened CharClass

  /** A non-empty run of letters and digits. */
  predicate IsToken(t: string) {
    t != [] && forall i :: 0 <= i < |t| ==> IsAlnum(t[i])
  }

  predicate AllTokens(ts: seq<string>) {
    forall k :: 0 <= k < |ts| ==> IsToken(ts[k])
  }

  /** The maximal runs of letters and digits of `s`, left to right. */
  function Tokens(s: string): (ts: seq<string>)
    ensures AllTokens(ts)
    decreases |s|
  {
    if s == [] then []
    else if !IsAlnum(s[0]) then Tokens(s[1..])
    else
      var n := Span(s, Alphanumeric);
      [s[..n]] + Tokens(s[n..])
  }

  /** The tokens written one after the other with `sep` between neighbours. */
  function Join(ts: seq<string>, sep: char): string
  {
    if |ts| == 0 then []
    else if |ts| == 1 then ts[0]
    else ts[0] + [sep] + Join(ts[1..], sep)
  }

  function Flatten(ts: seq<string>): string
  {
    if ts == [] then [] else ts[0] + Flatten(ts[1..])
  }

  function LowerAll(ts: seq<string>): (r: seq<string>)
    ensures |r| == |ts|
    ensures forall k :: 0 <= k < |r| ==> r[k] == Lower(ts[k])
  {
    seq(|ts|, k requires 0 <= k < |ts| => Lower(ts[k]))
  }

  /** `Inflector::slug($string, $replacement)`, for a one-character replacement. */
  function Slug(s: string, replacement: char): string
  {
    Join(Tokens(s), replacement)
  }

  /** Tokenising drops exactly the characters that are not letters or digits. */
  lemma {:induction false} TokensKeepAlphanumerics(s: string)
    ensures Flatten(Tokens(s)) == Alnums(s)
    decreases |s|
  {
    if s == [] {
    } else if !IsAlnum(s[0]) {
      TokensKeepAlphanumerics(s[1..]);
    } else {
      var n := Span(s, Alphanumeric);
      var ts := Tokens(s[n..]);
      TokensKeepAlphanumerics(s[n..]);
      assert ([s[..n]] + ts)[1..] == ts;
      assert s == s[..n] + s[n..];
      AlnumsConcat(s[..n], s[n..]);
      AlnumsOfAlnum(s[..n]);
    }
  }

  /** A string that is a single run of letters and digits is one token. */
  lemma TokensOfToken(t: string)
    requires IsToken(t)
    ensures Tokens(t) == [t]
  {
    assert t[..Span(t, Alphanumeric)] == t;
    assert t[|t|..] == [];
  }

  /** A token followed by characters that are not letters or digits opens
      the token list. */
  lemma TokensAfterToken(t: string, junk: string, rest: string)
    requires IsToken(t)
    requires junk != [] && forall i :: 0 <= i < |junk| ==> !IsAlnum(junk[i])
    ensures Tokens(t + junk + rest) == [t] + Tokens(rest)
  {
    var s := t + junk + rest;
    assert s == t + (junk + rest);
    SpanConcat(t, junk + rest, Alphanumeric);
    assert Span(t, Alphanumeric) == |t|;
    assert s[..|t|] == t;
    assert s[|t|..] == junk + rest;
    TokensSkipSeparators(junk, rest);
  }

  /** Leading characters that are not letters or digits produce no token. */
  lemma {:induction false} TokensSkipSeparators(junk: string, s: string)
    requires forall i :: 0 <= i < |junk| ==> !IsAlnum(junk[i])
    ensures Tokens(junk + s) == Tokens(s)
  {
    if junk != [] {
      assert (junk + s)[1..] == junk[1..] + s;
      TokensSkipSeparators(junk[1..], s);
    } else {
      assert junk + s == s;
    }
  }

  /** Two words separated by a run of other characters, and optionally
      followed by one, normalise to the two words joined by the separator. */
  lemma SlugOfTwoWords(w1: string, gap: string, w2: string, tail: string, sep: char)
    requires IsToken(w1) && IsToken(w2)
    requires gap != [] && forall i :: 0 <= i < |gap| ==> !IsAlnum(gap[i])
    requires forall i :: 0 <= i < |tail| ==> !IsAlnum(tail[i])
    ensures Slug(w1 + gap + w2 + tail, sep) == w1 + [sep] + w2
  {
    assert w1 + gap + w2 + tail == w1 + gap + (w2 + tail);
    TokensAfterToken(w1, gap, w2 + tail);
    if tail == [] {
      assert w2 + tail == w2;
      TokensOfToken(w2);
    } else {
      assert w2 + tail == w2 + tail + [];
      TokensAfterToken(w2, tail, []);
    }
    assert Tokens(w1 + gap + w2 + tail) == [w1, w2];
    assert [w1, w2][1..] == [w2];
    assert Join([w2], sep) == w2;
    assert Join([w1, w2], sep) == w1 + [sep] + w2;
  }

  /** Splitting a joined list of tokens gives the list back. */
  lemma {:induction false} TokensOfJoin(ts: seq<string>, sep: char)
    requires AllTokens(ts)
    requires !IsAlnum(sep)
    ensures Tokens(Join(ts, sep)) == ts
  {
    if |ts| == 0 {
    } else if |ts| == 1 {
      TokensOfToken(ts[0]);
    } else {
      TokensAfterToken(ts[0], [sep], Join(ts[1..], sep));
      TokensOfJoin(ts[1..], sep);
    }
  }

  /** A joined token list is a slug: letters, digits and single separators,
      with no separator at either end. */
  lemma {:induction false} JoinShape(ts: seq<string>, sep: char)
    requires AllTokens(ts)
    requires !IsAlnum(sep)
    ensures var r := Join(ts, sep);
      && (ts != [] ==> r != [])
      && (forall i :: 0 <= i < |r| ==> IsAlnum(r[i]) || r[i] == sep)
      && (r != [] ==> IsAlnum(r[0]) && IsAlnum(r[|r| - 1]))
      && (forall i :: 0 <= i < |r| - 1 && r[i] == sep ==> IsAlnum(r[i + 1]))
  {
    if |ts| >= 2 {
      var t, rest := ts[0], Join(ts[1..], sep);
      JoinShape(ts[1..], sep);
      var r := t + [sep] + rest;
      assert forall i :: |t| < i < |r| ==> r[i] == rest[i - |t| - 1];
    }
  }

  /** Joining keeps every letter and digit of the tokens, in order. */
  lemma {:induction false} JoinKeepsAlphanumerics(ts: seq<string>, sep: char)
    requires AllTokens(ts)
    requires !IsAlnum(sep)
    ensures Alnums(Join(ts, sep)) == Flatten(ts)
  {
    if |ts| == 0 {
    } else if |ts| == 1 {
      AlnumsOfAlnum(ts[0]);
      assert ts[1..] == [];
    } else {
      var t, rest := ts[0], Join(ts[1..], sep);
      JoinKeepsAlphanumerics(ts[1..], sep);
      AlnumsConcat(t + [sep], rest);
      AlnumsConcat(t, [sep]);
      AlnumsOfAlnum(t);
      assert Alnums([sep]) == [];
    }
  }

  /** Lower-casing a joined list lower-cases each token and keeps the separator. */
  lemma {:induction false} LowerJoin(ts: seq<string>, sep: char)
    requires !IsUpper(sep)
    ensures Lower(Join(ts, sep)) == Join(LowerAll(ts), sep)
  {
    if |ts| >= 2 {
      var t, rest := ts[0], Join(ts[1..], sep);
      LowerJoin(ts[1..], sep);
      LowerConcat(t + [sep], rest);
      LowerConcat(t, [sep]);
      assert LowerAll(ts)[1..] == LowerAll(ts[1..]);
    }
  }

  /** Tokens already in lower case are left alone by lower-casing. */
  lemma LowerAllOfLower(ts: seq<string>)
    requires forall k, i :: 0 <= k < |ts| && 0 <= i < |ts[k]| ==> !IsUpper(ts[k][i])
    ensures LowerAll(ts) == ts
  {
    forall k | 0 <= k < |ts| ensures Lower(ts[k]) == ts[k] {
      LowerOfLower(ts[k]);
    }
  }

  /** Joining two non-empty lists is joining each and putting one separator
      between the results. */
  lemma {:induction false} JoinAppend(xs: seq<string>, ys: seq<string>, sep: char)
    requires xs != [] && ys != []
    ensures Join(xs + ys, sep) == Join(xs, sep) + [sep] + Join(ys, sep)
  {
    if |xs| == 1 {
      assert (xs + ys)[1..] == ys;
    } else {
      assert (xs + ys)[1..] == xs[1..] + ys;
      JoinAppend(xs[1..], ys, sep);
    }
  }

  /** The normaliser keeps the letters and digits of its input, in order. */
  lemma SlugKeepsAlphanumerics(s: string, sep: char)
    requires !IsAlnum(sep)
    ensures Alnums(Slug(s, sep)) == Alnums(s)
  {
    JoinKeepsAlphanumerics(Tokens(s), sep);
    TokensKeepAlphanumerics(s);
  }

  /** Normalising a normalised string changes nothing. */
  lemma SlugIdempotent(s: string, sep: char)
    requires !IsAlnum(sep)
    ensures Slug(Slug(s, sep), sep) == Slug(s, sep)
  {
    TokensOfJoin(Tokens(s), sep);
  }
}
