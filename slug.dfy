/** `Slug::generate` (src/Utility/Slug.php:17-28): interpolate the record
    into the pattern, normalise the text into separator-delimited tokens,
    then lower-case it. */
module Slug {
  import opened CharClass
  import Inflector
  import Text

  function Generate(pattern: string, data: Text.Record := map[], replacement: char := '-'): (r: string)
    ensures forall i :: 0 <= i < |r| ==> !IsUpper(r[i])
  {
    Lower(Inflector.Slug(Text.Insert(pattern, data), replacement))
  }

  /** Every generated slug is lower-case letters and digits separated by
      single replacement characters, with none at either end. */
  lemma GenerateIsSlug(pattern: string, data: Text.Record, replacement: char)
    requires !IsAlnum(replacement)
    ensures var r := Generate(pattern, data, replacement);
      && (forall i :: 0 <= i < |r| ==> (IsAlnum(r[i]) && !IsUpper(r[i])) || r[i] == replacement)
      && (r != [] ==> r[0] != replacement && r[|r| - 1] != replacement)
      && (forall i :: 0 <= i < |r| - 1 && r[i] == replacement ==> r[i + 1] != replacement)
  {
    var joined := Inflector.Slug(Text.Insert(pattern, data), replacement);
    Inflector.JoinShape(Inflector.Tokens(Text.Insert(pattern, data)), replacement);
    var r := Lower(joined);
    assert forall i :: 0 <= i < |r| ==> (r[i] == replacement <==> joined[i] == replacement);
  }

  /** The slug holds exactly the letters and digits of the interpolated
      text, lower-cased and in order. */
  lemma GenerateKeepsAlphanumerics(pattern: string, data: Text.Record, replacement: char)
    requires !IsAlnum(replacement)
    ensures Alnums(Generate(pattern, data, replacement)) == Lower(Alnums(Text.Insert(pattern, data)))
  {
    var text := Text.Insert(pattern, data);
    Inflector.SlugKeepsAlphanumerics(text, replacement);
    AlnumsOfLower(Inflector.Slug(text, replacement));
  }

  /** Slugging a slug again, as a plain pattern, gives it back. */
  lemma GenerateIdempotent(pattern: string, data: Text.Record, replacement: char)
    requires !IsAlnum(replacement)
    ensures var r := Generate(pattern, data, replacement);
      Generate(r, map[], replacement) == r
  {
    var ts := Inflector.Tokens(Text.Insert(pattern, data));
    var r := Generate(pattern, data, replacement);
    Inflector.LowerJoin(ts, replacement);
    var lts := Inflector.LowerAll(ts);
    assert r == Inflector.Join(lts, replacement);
    Text.InsertLiteral(r, map[]);
    Inflector.TokensOfJoin(lts, replacement);
    LowerOfLower(r);
  }

  /** A pattern whose placeholders name none of the record's fields is
      slugged as literal text. */
  lemma GenerateLiteral(pattern: string, data: Text.Record, replacement: char)
    requires Text.Placeholders(pattern) !! data.Keys
    ensures Generate(pattern, data, replacement) == Lower(Inflector.Slug(pattern, replacement))
  {
    Text.InsertLiteral(pattern, data);
  }

  /** Fields the pattern does not name do not affect the slug. */
  lemma GenerateIgnoresUnusedField(pattern: string, data: Text.Record, k: string, v: string, replacement: char)
    requires k !in Text.Placeholders(pattern)
    ensures Generate(pattern, data[k := v], replacement) == Generate(pattern, data, replacement)
  {
    Text.InsertIgnoresUnusedField(pattern, data, k, v);
  }

  /** A pattern that is one placeholder slugs the value of its field. */
  lemma GeneratePlaceholder(k: string, data: Text.Record, replacement: char)
    requires Text.IsName(k) && k in data
    ensures Generate([':'] + k, data, replacement) == Generate(data[k], map[], replacement)
  {
    Text.InsertPlaceholder(k, data);
    Text.InsertEmpty(data[k]);
  }

  /** A pattern that interpolates to one lower-case word generates that
      word unchanged. */
  lemma GenerateWord(pattern: string, data: Text.Record, w: string, replacement: char)
    requires Text.Insert(pattern, data) == w
    requires Inflector.IsToken(w) && forall i :: 0 <= i < |w| ==> !IsUpper(w[i])
    ensures Generate(pattern, data, replacement) == w
  {
    Inflector.TokensOfToken(w);
    LowerOfLower(w);
  }
}
