/** The scenarios of tests/TestCase/Model/Behavior/SluggableBehaviorTest.php,
    stated as methods on the `Behavior` class: an article is saved, then saved again
    after its title changed. */
module SluggableBehaviorTest {
  import opened CharClass
  import Inflector
  import Text
  import Slug
  import SlugTest
  import opened SluggableBehavior

  /** Four words with gaps between them normalise to the four words joined
      by the separator. */
  lemma SlugOfFourWords(w1: string, g1: string, w2: string, g2: string, w3: string, g3: string, w4: string, sep: char)
    requires Inflector.IsToken(w1) && Inflector.IsToken(w2) && Inflector.IsToken(w3) && Inflector.IsToken(w4)
    requires g1 != [] && forall i :: 0 <= i < |g1| ==> !IsAlnum(g1[i])
    requires g2 != [] && forall i :: 0 <= i < |g2| ==> !IsAlnum(g2[i])
    requires g3 != [] && forall i :: 0 <= i < |g3| ==> !IsAlnum(g3[i])
    ensures Inflector.Slug(w1 + g1 + (w2 + g2 + (w3 + g3 + w4)), sep)
         == w1 + [sep] + w2 + [sep] + w3 + [sep] + w4
  {
    Inflector.TokensOfToken(w4);
    Inflector.TokensAfterToken(w3, g3, w4);
    Inflector.TokensAfterToken(w2, g2, w3 + g3 + w4);
    Inflector.TokensAfterToken(w1, g1, w2 + g2 + (w3 + g3 + w4));
    assert Inflector.Tokens(w1 + g1 + (w2 + g2 + (w3 + g3 + w4))) == [w1, w2, w3, w4];
    SlugTest.JoinFour(w1, w2, w3, w4, sep);
  }

  /** Facts about the literals of the title test; they state nothing about
      the model. */
  lemma NeverKnowSpellings()
    ensures "You" + "'" + ("ll" + " " + ("Never" + " " + "Know")) == "You'll Never Know"
    ensures "You" + ['-'] + "ll" + ['-'] + "Never" + ['-'] + "Know" == "You-ll-Never-Know"
  {
  }

  lemma NeverKnowGenerated()
    ensures Slug.Generate("You'll Never Know", map[], '-') == "you-ll-never-know"
  {
    NeverKnowSpellings();
    SlugOfFourWords("You", "'", "ll", " ", "Never", " ", "Know", '-');
    Text.InsertEmpty("You'll Never Know");
    NeverKnowLower();
  }

  lemma NeverKnowLower()
    ensures Lower("You-ll-Never-Know") == "you-ll-never-know"
  {
  }

  lemma DrWhoGenerated()
    ensures Slug.Generate("dr who", map[], '-') == "dr-who"
  {
    Text.InsertEmpty("dr who");
    SlugTest.DrWhoSlugged('-');
    SlugTest.Spellings();
    SlugTest.LowerCases();
  }

  /** The test patterns read the `title` field only. */
  lemma TitlePattern()
    ensures [':'] + "title" == ":title"
    ensures Text.IsName("title")
    ensures Text.Placeholders(":title") == {"title"}
  {
    Text.PlaceholdersOfPlaceholder("title");
  }

  lemma TitleGenerated(e: Text.Record, sep: char)
    requires "title" in e
    ensures Slug.Generate(":title", e, sep) == Slug.Generate(e["title"], map[], sep)
  {
    TitlePattern();
    Slug.GeneratePlaceholder("title", e, sep);
  }

  const Article: Text.Record := map["id" := "123", "title" := "dr who"]

  function TitleSettings(field: Option<string>, replacement: Option<char>, overwrite: Option<bool>): Settings {
    Settings(Some(":title"), field, replacement, overwrite)
  }

  /** The new article has a title and neither slug field. */
  predicate IsNewArticle(a: Text.Record) {
    "title" in a && a["title"] == "dr who" && "slug" !in a && "foo" !in a
  }

  /** A fact about the `Article` literal. */
  lemma ArticleFields()
    ensures IsNewArticle(Article)
  {
  }

  /** The first save of an article without a slug slugs its title into the
      configured field. */
  lemma FirstSave(c: Config, e: Text.Record, r: string)
    requires c.pattern == ":title" && "title" in e && c.field !in e
    requires Slug.Generate(e["title"], map[], c.replacement) == r
    ensures Slugged(c, e)[c.field] == r
    ensures Slugged(c, e).Keys == e.Keys + {c.field}
  {
    TitleGenerated(e, c.replacement);
  }

  const NeverKnow := "You'll Never Know"

  /** The slugs the tests expect, stated on values. */
  lemma AutoSlugSlugs(c: Config, a: Text.Record)
    requires c == Config(":title", "slug", '-', false)
    requires IsNewArticle(a)
    ensures c.field !in Text.Placeholders(c.pattern)
    ensures Slugged(c, a)["slug"] == "dr-who"
    ensures ResaveRequested(c, a)
    ensures var e := Slugged(c, a)["title" := NeverKnow];
      Slugged(c, e)["slug"] == "dr-who" && !ResaveRequested(c, e)
  {
    TitlePattern();
    DrWhoGenerated();
    FirstSave(c, a, "dr-who");
    ExistingSlugIsKept(c, Slugged(c, a)["title" := NeverKnow]);
  }

  lemma OverwriteSlugs(c: Config, a: Text.Record)
    requires c == Config(":title", "slug", '-', true)
    requires IsNewArticle(a)
    ensures c.field !in Text.Placeholders(c.pattern)
    ensures Slugged(c, a)["slug"] == "dr-who"
    ensures var e := Slugged(c, a)["title" := NeverKnow];
      Slugged(c, e)["slug"] == "you-ll-never-know"
  {
    TitlePattern();
    DrWhoGenerated();
    FirstSave(c, a, "dr-who");
    var e := Slugged(c, a)["title" := NeverKnow];
    TitleGenerated(e, '-');
    NeverKnowGenerated();
  }

  lemma NonStandardFieldSlugs(c: Config, a: Text.Record)
    requires c == Config(":title", "foo", '-', false)
    requires IsNewArticle(a)
    ensures c.field !in Text.Placeholders(c.pattern)
    ensures Slugged(c, a)["foo"] == "dr-who"
    ensures "slug" !in Slugged(c, a)
  {
    TitlePattern();
    assert "slug" != "foo";
    DrWhoGenerated();
    FirstSave(c, a, "dr-who");
  }

  lemma NonStandardReplacementSlugs(c: Config, a: Text.Record)
    requires c == Config(":title", "slug", '.', false)
    requires IsNewArticle(a)
    ensures c.field !in Text.Placeholders(c.pattern)
    ensures Slugged(c, a)["slug"] == "dr.who"
  {
    TitlePattern();
    SlugTest.ReplacementExample();
    FirstSave(c, a, "dr.who");
  }

  /** `$this->Articles->save($article)` in the tests: their patterns do not
      read the slug field, so the save stops after at most one extra save. */
  method SaveArticle(b: Behavior)
    requires b.config.field !in Text.Placeholders(b.config.pattern)
    modifies b
    ensures b.entity == Slugged(b.config, old(b.entity))
    ensures b.resaves == old(b.resaves) + (if ResaveRequested(b.config, old(b.entity)) then 1 else 0)
  {
    StableSaveSettles(b.config, b.entity);
    b.Save(1);
  }

  /** Saving a new article slugs its title into `slug` and saves once more;
      after the title changes, saving again keeps the slug, because
      overwriting is off (lines 39-56). */
  method AutoSlug() returns (first: string, second: string, resaves: nat)
    ensures first == "dr-who" && second == "dr-who"
    ensures resaves == 1
  {
    var b := new Behavior(TitleSettings(None, None, None), Article);
    ArticleFields();
    AutoSlugSlugs(b.config, b.entity);
    SaveArticle(b);
    first := b.entity["slug"];
    b.entity := b.entity["title" := NeverKnow];
    SaveArticle(b);
    second := b.entity["slug"];
    resaves := b.resaves;
  }

  /** With overwriting on, the second save regenerates the slug from the
      new title (lines 58-77). */
  method AutoSlugWithOverwrite() returns (first: string, second: string)
    ensures first == "dr-who" && second == "you-ll-never-know"
  {
    var b := new Behavior(TitleSettings(None, None, Some(true)), Article);
    ArticleFields();
    OverwriteSlugs(b.config, b.entity);
    SaveArticle(b);
    first := b.entity["slug"];
    b.entity := b.entity["title" := NeverKnow];
    SaveArticle(b);
    second := b.entity["slug"];
  }

  /** A configured field receives the slug and `slug` is left unset
      (lines 79-94). */
  method NonStandardField() returns (foo: string, slug: Option<string>)
    ensures foo == "dr-who" && slug == None
  {
    var b := new Behavior(TitleSettings(Some("foo"), None, None), Article);
    ArticleFields();
    NonStandardFieldSlugs(b.config, b.entity);
    SaveArticle(b);
    foo := b.entity["foo"];
    slug := Get(b.entity, "slug");
  }

  /** The configured replacement separates the words (lines 96-110). */
  method NonStandardReplacement() returns (slug: string)
    ensures slug == "dr.who"
  {
    var b := new Behavior(TitleSettings(None, Some('.'), None), Article);
    ArticleFields();
    NonStandardReplacementSlugs(b.config, b.entity);
    SaveArticle(b);
    slug := b.entity["slug"];
  }

  /** Facts about the literals of the falsy-slug chain. */
  lemma SlugTitleSpellings()
    ensures [':'] + "slug" + ['-'] + [':'] + "title" == ":slug-:title"
    ensures Text.IsName("slug") && Text.IsName("title") && "slug" != "title"
  {
  }

  /** The falsy-slug chain, stated on values. */
  lemma FalsySlugSaves(c: Config, e: Text.Record)
    requires c == Configure(Settings(Some(":slug-:title"), None, None, None))
    requires e == map["slug" := "", "title" := "0"]
    ensures !ResaveRequested(c, SlugChain(c, e, 2))
    ensures ExtraSaves(c, e, 2) == 2
    ensures Settled(c, e, 2)["slug"] == "0-0"
  {
    SlugTitleSpellings();
    FalsySlugTakesTwoExtraSaves("slug", "title", e);
  }

  /** A save whose chain needs two extra saves: with the pattern
      `:slug-:title`, an empty slug and the title `"0"`, the slug settles on
      `"0-0"` after the table saved twice more. */
  method FalsySlugChain() returns (slug: string, resaves: nat)
    ensures slug == "0-0" && resaves == 2
  {
    var b := new Behavior(Settings(Some(":slug-:title"), None, None, None), map["slug" := "", "title" := "0"]);
    FalsySlugSaves(b.config, b.entity);
    b.Save(2);
    slug := b.entity["slug"];
    resaves := b.resaves;
  }
}
