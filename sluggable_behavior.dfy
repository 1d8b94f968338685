/** `SluggableBehavior` (src/Model/Behavior/SluggableBehavior.php): the
    configuration, the overwrite policy of `_generateSlug`, and `afterSave`,
    which writes the slug into the entity and saves it once more when the
    slug changed. */
module SluggableBehavior {
  import opened CharClass
  import Inflector
  import Text
  import Slug
  import Chain

  datatype Option<T> = None | Some(value: T)

  /** The behaviour's options. */
  datatype Config = Config(pattern: string, field: string, replacement: char, overwrite: bool)

  /** The options a table passes when it adds the behaviour; an absent one
      takes its default. */
  datatype Settings = Settings(
    pattern: Option<string>,
    field: Option<string>,
    replacement: Option<char>,
    overwrite: Option<bool>)

  function OrElse<T>(o: Option<T>, default: T): T {
    if o.Some? then o.value else default
  }

  /** The configuration in force: each option given in the settings, and
      otherwise the default (slug the `name` field into `slug`, separate
      words with `-`, keep an existing slug). */
  function Configure(s: Settings): (c: Config)
    ensures c.pattern == (if s.pattern.Some? then s.pattern.value else ":name")
    ensures c.field == (if s.field.Some? then s.field.value else "slug")
    ensures c.replacement == (if s.replacement.Some? then s.replacement.value else '-')
    ensures c.overwrite == (s.overwrite.Some? && s.overwrite.value)
  {
    Config(
      OrElse(s.pattern, ":name"),
      OrElse(s.field, "slug"),
      OrElse(s.replacement, '-'),
      OrElse(s.overwrite, false))
  }

  /** `$entity->get($k)`: null when the entity has no such field. */
  function Get(e: Text.Record, k: string): Option<string> {
    if k in e then Some(e[k]) else None
  }

  /** PHP truthiness of a field value: null, `""` and `"0"` are false. */
  predicate IsTruthy(v: Option<string>) {
    v.Some? && v.value != "" && v.value != "0"
  }

  /** PHP's loose `$original != $slug` for a string slug: null is loosely
      equal to the empty string only. */
  predicate Differs(original: Option<string>, slug: string) {
    match original
    case None => slug != ""
    case Some(o) => o != slug
  }

  /** `_generateSlug`: an existing truthy slug stays unless overwriting is
      on; otherwise the slug is generated from the pattern and the entity. */
  function GenerateSlug(c: Config, e: Text.Record): string {
    if IsTruthy(Get(e, c.field)) && !c.overwrite then e[c.field]
    else Slug.Generate(c.pattern, e, c.replacement)
  }

  /** The entity after `afterSave` has set the slug field. */
  function Slugged(c: Config, e: Text.Record): (r: Text.Record)
    ensures r.Keys == e.Keys + {c.field}
    ensures r[c.field] == GenerateSlug(c, e)
    ensures forall k :: k in e && k != c.field ==> r[k] == e[k]
  {
    e[c.field := GenerateSlug(c, e)]
  }

  /** Whether `afterSave` saves the entity again: the slug it wrote differs
      from the value the field held before. */
  predicate ResaveRequested(c: Config, e: Text.Record) {
    Differs(Get(e, c.field), GenerateSlug(c, e))
  }

  /** One run of `afterSave`, as a step of `Chain`: the entity it writes,
      and whether it saves the entity again. */
  function Step(c: Config): Text.Record -> Text.Record {
    e => Slugged(c, e)
  }

  function Again(c: Config): Text.Record -> bool {
    e => ResaveRequested(c, e)
  }

  /** The entity after `n` runs of `afterSave` in a row, each on the
      entity the previous one wrote. */
  function SlugChain(c: Config, e: Text.Record, n: nat): Text.Record {
    Chain.Iterate(Step(c), e, n)
  }

  /** Along the chain only the slug field is ever written. */
  lemma {:induction false} SlugChainWritesOnlySlug(c: Config, e: Text.Record, n: nat)
    ensures var r := SlugChain(c, e, n);
      && r.Keys == (if n == 0 then e.Keys else e.Keys + {c.field})
      && forall k :: k in e && k != c.field ==> r[k] == e[k]
    decreases n
  {
    if n > 0 {
      SlugChainWritesOnlySlug(c, Slugged(c, e), n - 1);
    }
  }

  /** How many extra saves a save sets off when the run on the `n`-th
      entity of the chain is known to request none. */
  function ExtraSaves(c: Config, e: Text.Record, n: nat): (k: nat)
    ensures k <= n
  {
    Chain.Stops(Step(c), Again(c), e, n)
  }

  /** The count of extra saves is the first position of the chain whose
      run of `afterSave` requests no save: every run before it requests
      one, and the run there requests none. */
  lemma ExtraSavesIsFirstStop(c: Config, e: Text.Record, n: nat)
    requires !ResaveRequested(c, SlugChain(c, e, n))
    ensures forall j :: 0 <= j < ExtraSaves(c, e, n) ==> ResaveRequested(c, SlugChain(c, e, j))
    ensures !ResaveRequested(c, SlugChain(c, e, ExtraSaves(c, e, n)))
  {
    forall j | 0 <= j < ExtraSaves(c, e, n)
      ensures ResaveRequested(c, SlugChain(c, e, j))
    {
      Chain.AgainBeforeStop(Step(c), Again(c), e, n, j);
    }
    Chain.NotAgainAtStop(Step(c), Again(c), e, n);
  }

  /** The entity a save leaves behind: `afterSave` runs on the saved
      entity, and while the run requests a save it runs again on what it
      wrote, at most `n` times more. */
  function Settled(c: Config, e: Text.Record, n: nat): Text.Record {
    Chain.Last(Step(c), Again(c), e, n)
  }

  /** The entity a save leaves is the one that the run at the first stop of
      the chain writes. */
  lemma SettledIsChainEnd(c: Config, e: Text.Record, n: nat)
    ensures Settled(c, e, n) == Slugged(c, SlugChain(c, e, ExtraSaves(c, e, n)))
  {
    Chain.LastIsStepAtStop(Step(c), Again(c), e, n);
    Chain.IterateLast(Step(c), e, ExtraSaves(c, e, n));
  }

  /** A save moves along the chain by one run of `afterSave`: it stops
      there when that run requests no save, and otherwise goes on from the
      entity that run wrote, with one bound fewer. */
  lemma SaveStep(c: Config, e: Text.Record, n: nat)
    requires !ResaveRequested(c, SlugChain(c, e, n))
    ensures !ResaveRequested(c, e) ==>
      Settled(c, e, n) == Slugged(c, e) && ExtraSaves(c, e, n) == 0
    ensures ResaveRequested(c, e) ==>
      && n > 0
      && !ResaveRequested(c, SlugChain(c, Slugged(c, e), n - 1))
      && Settled(c, e, n) == Settled(c, Slugged(c, e), n - 1)
      && ExtraSaves(c, e, n) == ExtraSaves(c, Slugged(c, e), n - 1) + 1
  {
  }

  /** When the run after the first requests no save, the chain stops after
      at most one extra save and the entity is slugged once. */
  lemma SettlesAfterOne(c: Config, e: Text.Record)
    requires !ResaveRequested(c, Slugged(c, e))
    ensures !ResaveRequested(c, SlugChain(c, e, 1))
    ensures ExtraSaves(c, e, 1) == if ResaveRequested(c, e) then 1 else 0
    ensures Settled(c, e, 1) == Slugged(c, e)
  {
    assert SlugChain(c, e, 1) == Slugged(c, e);
    if ResaveRequested(c, e) {
      var e1 := Slugged(c, e);
      assert Settled(c, e, 1) == Slugged(c, e1);
      assert c.field in e1;
      ResaveOnlyOnChange(c, e1);
    }
  }

  /** A pattern that reads the slug field can need more than one extra
      save with overwriting off. With the pattern `:slug-:title`, an empty
      slug and the title `"0"`, the first run writes the falsy `"0"`, the
      next run regenerates `"0-0"`, and only the run after that keeps it. */
  lemma FalsySlugTakesTwoExtraSaves(k: string, t: string, e: Text.Record)
    requires Text.IsName(k) && Text.IsName(t) && k != t
    requires k in e && e[k] == "" && t in e && e[t] == "0"
    ensures var c := Config([':'] + k + ['-'] + [':'] + t, k, '-', false);
      && ResaveRequested(c, e)
      && ResaveRequested(c, SlugChain(c, e, 1))
      && !ResaveRequested(c, SlugChain(c, e, 2))
      && ExtraSaves(c, e, 2) == 2
      && Settled(c, e, 2)[k] == "0-0"
  {
    var c := Config([':'] + k + ['-'] + [':'] + t, k, '-', false);
    ZeroWords();
    assert e[k] + ['-'] + e[t] == "-0";
    TwoPlaceholdersSlugged(c, k, t, e, "0");
    var e1 := Slugged(c, e);
    assert e1[k] + ['-'] + e1[t] == "0-0";
    TwoPlaceholdersSlugged(c, k, t, e1, "0-0");
    var e2 := Slugged(c, e1);
    ExistingSlugIsKept(c, e2);
    assert SlugChain(c, e, 1) == e1;
    assert SlugChain(c, e, 2) == e2;
  }

  /** Facts about the literals of the falsy-slug chain. */
  lemma ZeroWords()
    ensures "" + ['-'] + "0" == "-0" && "0" + ['-'] + "0" == "0-0"
    ensures Slug.Generate("-0", map[], '-') == "0"
    ensures Slug.Generate("0-0", map[], '-') == "0-0"
    ensures !IsTruthy(Some("0")) && IsTruthy(Some("0-0"))
  {
    LoneZeroSlugged();
    ZeroDashZeroSlugged();
  }

  lemma LoneZeroSlugged()
    ensures Slug.Generate("-0", map[], '-') == "0"
  {
    Text.InsertEmpty("-0");
    assert "-0" == "-" + "0";
    Inflector.TokensSkipSeparators("-", "0");
    Inflector.TokensOfToken("0");
    LowerOfLower("0");
  }

  lemma ZeroDashZeroSlugged()
    ensures Slug.Generate("0-0", map[], '-') == "0-0"
  {
    Text.InsertEmpty("0-0");
    assert "0-0" == "0" + "-" + "0" + "";
    Inflector.SlugOfTwoWords("0", "-", "0", "", '-');
    LowerOfLower("0-0");
  }

  /** With no truthy slug, the pattern `:k-:t`, with `k` the slug field,
      writes the slug of the two values joined by `-`, and requests a save
      exactly when that changes the field. */
  lemma TwoPlaceholdersSlugged(c: Config, k: string, t: string, e: Text.Record, w: string)
    requires Text.IsName(k) && Text.IsName(t)
    requires c.pattern == [':'] + k + ['-'] + [':'] + t && c.field == k
    requires k in e && t in e && !IsTruthy(Get(e, k))
    requires Slug.Generate(e[k] + ['-'] + e[t], map[], c.replacement) == w
    ensures GenerateSlug(c, e) == w
    ensures Slugged(c, e)[k] == w && (t != k ==> Slugged(c, e)[t] == e[t])
    ensures ResaveRequested(c, e) <==> e[k] != w
  {
    Text.InsertTwoPlaceholders(k, '-', t, e);
    Text.InsertEmpty(e[k] + ['-'] + e[t]);
  }

  /** A truthy slug with overwriting off is returned as it is, whatever the
      other fields hold, so `afterSave` leaves the entity alone and does not
      save it again. */
  lemma ExistingSlugIsKept(c: Config, e: Text.Record)
    requires !c.overwrite && IsTruthy(Get(e, c.field))
    ensures GenerateSlug(c, e) == e[c.field]
    ensures Slugged(c, e) == e
    ensures !ResaveRequested(c, e)
  {
  }

  /** With overwriting on, or no truthy slug yet, the slug is generated
      from the pattern. With a separator that is not a letter or digit it is
      a well-formed slug (lower-case letters and digits, with single
      separators between them and none at either end), and with overwriting on it does not depend on the
      old slug when the pattern does not name the slug field. */
  lemma SlugIsRegenerated(c: Config, e: Text.Record, old_slug: string)
    requires c.overwrite || !IsTruthy(Get(e, c.field))
    ensures var r := GenerateSlug(c, e);
      && r == Slug.Generate(c.pattern, e, c.replacement)
      && (!IsAlnum(c.replacement) ==>
            && (forall i :: 0 <= i < |r| ==> (IsAlnum(r[i]) && !IsUpper(r[i])) || r[i] == c.replacement)
            && (r != [] ==> r[0] != c.replacement && r[|r| - 1] != c.replacement)
            && (forall i :: 0 <= i < |r| - 1 && r[i] == c.replacement ==> r[i + 1] != c.replacement))
      && (c.overwrite && c.field !in Text.Placeholders(c.pattern) ==>
            GenerateSlug(c, e[c.field := old_slug]) == r)
  {
    if !IsAlnum(c.replacement) {
      Slug.GenerateIsSlug(c.pattern, e, c.replacement);
    }
    if c.overwrite && c.field !in Text.Placeholders(c.pattern) {
      Slug.GenerateIgnoresUnusedField(c.pattern, e, c.field, old_slug, c.replacement);
    }
  }

  /** A second save is requested only after the slug field really changed. */
  lemma ResaveOnlyOnChange(c: Config, e: Text.Record)
    ensures ResaveRequested(c, e) ==> Slugged(c, e) != e
    ensures c.field in e ==> (ResaveRequested(c, e) <==> Slugged(c, e) != e)
  {
  }

  /** Slugging an entity that `afterSave` has just slugged changes nothing
      and requests no save, as long as the pattern does not read the slug
      field: the save that `afterSave` triggers is the last one. */
  lemma SluggingIsStable(c: Config, e: Text.Record)
    requires c.field !in Text.Placeholders(c.pattern)
    ensures GenerateSlug(c, Slugged(c, e)) == GenerateSlug(c, e)
    ensures Slugged(c, Slugged(c, e)) == Slugged(c, e)
    ensures !ResaveRequested(c, Slugged(c, e))
  {
    var s := GenerateSlug(c, e);
    var e1 := Slugged(c, e);
    assert e1 == e[c.field := s];
    if !(IsTruthy(Get(e1, c.field)) && !c.overwrite) {
      Slug.GenerateIgnoresUnusedField(c.pattern, e, c.field, s, c.replacement);
      assert !(IsTruthy(Get(e, c.field)) && !c.overwrite);
    }
    assert e1[c.field := s] == e1;
  }

  /** So a save with a pattern that does not read the slug field stops
      after at most one extra save, leaving the entity slugged once. */
  lemma StableSaveSettles(c: Config, e: Text.Record)
    requires c.field !in Text.Placeholders(c.pattern)
    ensures !ResaveRequested(c, SlugChain(c, e, 1))
    ensures ExtraSaves(c, e, 1) == if ResaveRequested(c, e) then 1 else 0
    ensures Settled(c, e, 1) == Slugged(c, e)
  {
    SluggingIsStable(c, e);
    SettlesAfterOne(c, e);
  }

  /** With overwriting off, a truthy slug once written is kept by the next
      `afterSave`, whatever the pattern reads, so the chain of saves stops. */
  lemma KeptSlugSettles(c: Config, e: Text.Record)
    requires !c.overwrite && IsTruthy(Some(GenerateSlug(c, e)))
    ensures GenerateSlug(c, Slugged(c, e)) == GenerateSlug(c, e)
    ensures !ResaveRequested(c, Slugged(c, e))
  {
  }

  /** A pattern that is the slug field's placeholder alone settles: the
      slug it writes is already normalised, so the next `afterSave` writes
      it again and requests no save. */
  lemma LonePlaceholderSettles(c: Config, e: Text.Record)
    requires Text.IsName(c.field) && c.pattern == [':'] + c.field
    requires !IsAlnum(c.replacement)
    ensures GenerateSlug(c, Slugged(c, e)) == GenerateSlug(c, e)
    ensures !ResaveRequested(c, Slugged(c, e))
  {
    var s := GenerateSlug(c, e);
    var e1 := Slugged(c, e);
    if !(IsTruthy(Get(e1, c.field)) && !c.overwrite) {
      assert !(IsTruthy(Get(e, c.field)) && !c.overwrite);
      Slug.GeneratePlaceholder(c.field, e1, c.replacement);
      Slug.GenerateIdempotent(c.pattern, e, c.replacement);
    }
  }

  /** A pattern that reads the slug field can keep the saves going: with
      overwriting on and the pattern `:k-x`, where `k` is the slug field and
      `x` a lower-case letter or digit, every run of `afterSave` on a field
      holding a non-empty slug of lower-case tokens joined by `-` requests
      a save, so the chain of saves never ends and no bound `n` lets
      `Behavior.Save` be called. */
  lemma {:induction false} SelfReferencingPatternNeverSettles(k: string, x: char, e: Text.Record, ts: seq<string>, n: nat)
    requires Text.IsName(k) && IsAlnum(x) && !IsUpper(x)
    requires Inflector.AllTokens(ts) && ts != []
    requires forall j, i :: 0 <= j < |ts| && 0 <= i < |ts[j]| ==> !IsUpper(ts[j][i])
    requires k in e && e[k] == Inflector.Join(ts, '-')
    ensures ResaveRequested(Config([':'] + k + ['-', x], k, '-', true), SlugChain(Config([':'] + k + ['-', x], k, '-', true), e, n))
    decreases n
  {
    var c := Config([':'] + k + ['-', x], k, '-', true);
    if n == 0 {
      SelfReferencingRunAppends(k, x, e, ts);
    } else {
      var ys := SelfReferencingStep(k, x, e, ts);
      SelfReferencingPatternNeverSettles(k, x, Slugged(c, e), ys, n - 1);
      SlugChainStep(c, e, n);
    }
  }

  /** After one run the field is again lower-case tokens joined by `-`. */
  lemma SelfReferencingStep(k: string, x: char, e: Text.Record, ts: seq<string>) returns (ys: seq<string>)
    requires Text.IsName(k) && IsAlnum(x) && !IsUpper(x)
    requires Inflector.AllTokens(ts) && ts != []
    requires forall j, i :: 0 <= j < |ts| && 0 <= i < |ts[j]| ==> !IsUpper(ts[j][i])
    requires k in e && e[k] == Inflector.Join(ts, '-')
    ensures Inflector.AllTokens(ys) && ys != []
    ensures forall j, i :: 0 <= j < |ys| && 0 <= i < |ys[j]| ==> !IsUpper(ys[j][i])
    ensures var e1 := Slugged(Config([':'] + k + ['-', x], k, '-', true), e);
      k in e1 && e1[k] == Inflector.Join(ys, '-')
  {
    SelfReferencingRunAppends(k, x, e, ts);
    ys := ts + [[x]];
    assert forall j, i :: 0 <= j < |ys| && 0 <= i < |ys[j]| ==> !IsUpper(ys[j][i]);
  }

  /** The chain after `n` runs is the chain after `n - 1` runs from the
      entity the first run wrote. */
  lemma SlugChainStep(c: Config, e: Text.Record, n: nat)
    requires n > 0
    ensures SlugChain(c, e, n) == SlugChain(c, Slugged(c, e), n - 1)
  {
  }

  /** One run of `afterSave` with such a pattern appends `-x` to the slug
      and requests a save, leaving the field in the same form. */
  lemma SelfReferencingRunAppends(k: string, x: char, e: Text.Record, ts: seq<string>)
    requires Text.IsName(k) && IsAlnum(x) && !IsUpper(x)
    requires Inflector.AllTokens(ts) && ts != []
    requires forall j, i :: 0 <= j < |ts| && 0 <= i < |ts[j]| ==> !IsUpper(ts[j][i])
    requires k in e && e[k] == Inflector.Join(ts, '-')
    ensures var c := Config([':'] + k + ['-', x], k, '-', true);
      && ResaveRequested(c, e)
      && Slugged(c, e)[k] == Inflector.Join(ts + [[x]], '-')
  {
    var c := Config([':'] + k + ['-', x], k, '-', true);
    var ys := ts + [[x]];
    var grown := Inflector.Join(ys, '-');
    SelfReferenceInserted(k, x, e);
    Inflector.JoinAppend(ts, [[x]], '-');
    assert Inflector.Join([[x]], '-') == [x];
    assert e[k] + ['-', x] == e[k] + ['-'] + [x] == grown;
    assert Inflector.AllTokens(ys);
    SlugOfLowerJoin(ys, '-');
    assert GenerateSlug(c, e) == grown;
    assert |grown| == |e[k]| + 2;
  }

  /** Interpolating `:k-x` appends `-x` to the value of field `k`. */
  lemma SelfReferenceInserted(k: string, x: char, e: Text.Record)
    requires Text.IsName(k) && k in e
    ensures Text.Insert([':'] + k + ['-', x], e) == e[k] + ['-', x]
  {
    assert [':'] + k + ['-', x] == ([':'] + k) + ['-', x];
    Text.InsertPlaceholder(k, e);
    Text.InsertConcat([':'] + k, ['-', x], e);
    assert !Text.StartsPlaceholder(['-', x]) && ['-', x][1..] == [x];
    assert !Text.StartsPlaceholder([x]) && [x][1..] == [];
    assert Text.Insert([x], e) == [x];
  }

  /** Lower-case tokens joined by a separator come out of normalising and
      lower-casing as they went in. */
  lemma SlugOfLowerJoin(ts: seq<string>, sep: char)
    requires Inflector.AllTokens(ts)
    requires forall k, i :: 0 <= k < |ts| && 0 <= i < |ts[k]| ==> !IsUpper(ts[k][i])
    requires !IsAlnum(sep)
    ensures Lower(Inflector.Slug(Inflector.Join(ts, sep), sep)) == Inflector.Join(ts, sep)
  {
    Inflector.TokensOfJoin(ts, sep);
    Inflector.LowerJoin(ts, sep);
    Inflector.LowerAllOfLower(ts);
  }

  /** The behaviour attached to a table, with the entity being saved. */
  class Behavior {
    const config: Config
    /** The entity being saved. */
    var entity: Text.Record
    /** How many times `afterSave` has asked the table to save again. */
    var resaves: nat

    constructor (settings: Settings, entity: Text.Record)
      ensures config == Configure(settings)
      ensures this.entity == entity
      ensures resaves == 0
    {
      config := Configure(settings);
      this.entity := entity;
      resaves := 0;
    }

    /** `afterSave`: store the slug in the configured field and, when it
        differs from the value the field held before, save again. */
    method AfterSave() returns (resave: bool)
      modifies this
      ensures entity == Slugged(config, old(entity))
      ensures resave == ResaveRequested(config, old(entity))
      ensures resaves == old(resaves) + (if resave then 1 else 0)
    {
      var original := Get(entity, config.field);
      entity := entity[config.field := GenerateSlug(config, entity)];
      resave := Differs(original, entity[config.field]);
      if resave {
        resaves := resaves + 1;
      }
    }

    /** Saving the entity: `afterSave` runs, and each save it requests runs
        `afterSave` again. Required: the run on the `n`-th entity of the
        chain requests no save, so the chain stops after at most `n` extra
        saves; it stops at the first entity whose run requests none, and
        that run's slug is the one kept. */
    method Save(ghost n: nat)
      requires !ResaveRequested(config, SlugChain(config, entity, n))
      modifies this
      decreases n
      ensures entity == Settled(config, old(entity), n)
      ensures resaves == old(resaves) + ExtraSaves(config, old(entity), n)
    {
      SaveStep(config, entity, n);
      var again := AfterSave();
      if again {
        Save(n - 1);
      }
    }
  }
}
