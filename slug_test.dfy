/** The test vectors of tests/TestCase/Utility/SlugTest.php, stated about
    `Slug.Generate`. Each `...Example` lemma puts together three steps, each
    proved on its own: the interpolated text, its normalised form, and the
    lower-cased slug. */
module SlugTest {
  import opened CharClass
  import Inflector
  import Text
  import Slug

  /** How the test strings split into words and gaps. This lemma and the
      others below that only spell out string literals are facts about
      literals, kept apart so that each example combines small steps; they
      state nothing about the model. */
  lemma Spellings()
    ensures "slug" + " " + "me" + "" == "slug me"
    ensures "slug" + ['-'] + "me" == "slug-me"
    ensures "SLUG" + "(!@#(" + "ME" + "" == "SLUG(!@#(ME"
    ensures "SLUG" + ['-'] + "ME" == "SLUG-ME"
    ensures "123" + "-" + "abc" + "" == "123-abc"
    ensures "123" + ['-'] + "abc" == "123-abc"
    ensures "Hello" + ", " + "World" + "!" == "Hello, World!"
    ensures "Hello" + ['-'] + "World" == "Hello-World"
    ensures "dr" + " " + "who" + "" == "dr who"
    ensures "dr" + ['-'] + "who" == "dr-who"
    ensures "dr" + ['.'] + "who" == "dr.who"
    ensures [':'] + "description" == ":description"
    ensures [':'] + "title" == ":title"
  {
  }

  /** Lower-casing the normalised test strings (facts about literals). */
  lemma LowerCases()
    ensures Lower("slug-me") == "slug-me"
    ensures Lower("SLUG-ME") == "slug-me"
    ensures Lower("123-abc") == "123-abc"
    ensures Lower("Hello-World") == "hello-world"
    ensures Lower("dr-who") == "dr-who"
    ensures Lower("dr.who") == "dr.who"
  {
  }

  lemma SlugMeSlugged()
    ensures Inflector.Slug("slug me", '-') == "slug-me"
  {
    Inflector.SlugOfTwoWords("slug", " ", "me", "", '-');
    Spellings();
  }

  lemma ShoutedSlugMeSlugged()
    ensures Inflector.Slug("SLUG(!@#(ME", '-') == "SLUG-ME"
  {
    Inflector.SlugOfTwoWords("SLUG", "(!@#(", "ME", "", '-');
    Spellings();
  }

  const LongWords: seq<string> := ["a", "really", "long", "slug", "that", "i", "just", "made"]

  lemma JoinFour(w1: string, w2: string, w3: string, w4: string, sep: char)
    ensures Inflector.Join([w1, w2, w3, w4], sep) == w1 + [sep] + w2 + [sep] + w3 + [sep] + w4
  {
    assert [w3, w4][1..] == [w4];
    assert Inflector.Join([w3, w4], sep) == w3 + [sep] + w4;
    assert [w2, w3, w4][1..] == [w3, w4];
    assert Inflector.Join([w2, w3, w4], sep) == w2 + [sep] + w3 + [sep] + w4;
    assert [w1, w2, w3, w4][1..] == [w2, w3, w4];
  }

  lemma LongWordsJoined(sep: char)
    ensures Inflector.Join(LongWords, sep)
         == ("a" + [sep] + "really" + [sep] + "long" + [sep] + "slug") + [sep] + ("that" + [sep] + "i" + [sep] + "just" + [sep] + "made")
  {
    JoinFour("a", "really", "long", "slug", sep);
    JoinFour("that", "i", "just", "made", sep);
    Inflector.JoinAppend(["a", "really", "long", "slug"], ["that", "i", "just", "made"], sep);
    assert ["a", "really", "long", "slug"] + ["that", "i", "just", "made"] == LongWords;
  }

  lemma LongSentenceSpacedHalves()
    ensures "a" + [' '] + "really" + [' '] + "long" + [' '] + "slug" == "a really long slug"
    ensures "that" + [' '] + "i" + [' '] + "just" + [' '] + "made" == "that i just made"
  {
  }

  lemma LongSentenceSpaced()
    ensures "a really long slug" + [' '] + "that i just made" == "a really long slug that i just made"
  {
  }

  lemma LongSentenceDashedHalves()
    ensures "a" + ['-'] + "really" + ['-'] + "long" + ['-'] + "slug" == "a-really-long-slug"
    ensures "that" + ['-'] + "i" + ['-'] + "just" + ['-'] + "made" == "that-i-just-made"
  {
  }

  lemma LongSentenceDashed()
    ensures "a-really-long-slug" + ['-'] + "that-i-just-made" == "a-really-long-slug-that-i-just-made"
  {
  }

  lemma LongWordsAreTokens()
    ensures Inflector.AllTokens(LongWords)
  {
  }

  lemma LongSentenceSlugged()
    ensures Inflector.Slug("a really long slug that i just made", '-') == "a-really-long-slug-that-i-just-made"
  {
    LongWordsJoined(' ');
    LongWordsJoined('-');
    LongSentenceSpacedHalves();
    LongSentenceSpaced();
    LongSentenceDashedHalves();
    LongSentenceDashed();
    LongWordsAreTokens();
    Inflector.TokensOfJoin(LongWords, ' ');
  }

  lemma LongSlugLower()
    ensures Lower("a-really-long-slug-that-i-just-made") == "a-really-long-slug-that-i-just-made"
  {
    LowerOfLower("a-really-long-slug-that-i-just-made");
  }

  /** Plain patterns: spaces and runs of punctuation become one dash, and
      letters are lower-cased (tests/TestCase/Utility/SlugTest.php:13-24). */
  lemma BasicSlugExamples()
    ensures Slug.Generate("slug me") == "slug-me"
    ensures Slug.Generate("SLUG(!@#(ME") == "slug-me"
    ensures Slug.Generate("a really long slug that i just made") == "a-really-long-slug-that-i-just-made"
  {
    Text.InsertEmpty("slug me");
    SlugMeSlugged();
    Text.InsertEmpty("SLUG(!@#(ME");
    ShoutedSlugMeSlugged();
    Text.InsertEmpty("a really long slug that i just made");
    LongSentenceSlugged();
    LongSlugLower();
    LowerCases();
  }

  /** The record used by the patterned tests; the integer id is held as its
      decimal text. */
  const PatternData: Text.Record := map["id" := "123", "name" := "abc", "description" := "Hello, World!"]

  lemma IdNameSpellings()
    ensures ":id" + "-:name" == ":id-:name"
    ensures "-" + ":name" == "-:name"
    ensures [':'] + "id" == ":id"
    ensures [':'] + "name" == ":name"
    ensures "123" + ("-" + "abc") == "123-abc"
  {
  }

  lemma DashNameInserted(data: Text.Record)
    requires "name" in data && data["name"] == "abc"
    ensures Text.Insert("-:name", data) == "-" + "abc"
  {
    IdNameSpellings();
    Text.InsertPlaceholder("name", data);
    Text.InsertConcat("-", ":name", data);
  }

  lemma IdNameInserted(data: Text.Record)
    requires "id" in data && data["id"] == "123"
    requires "name" in data && data["name"] == "abc"
    ensures Text.Insert(":id-:name", data) == "123-abc"
  {
    IdNameSpellings();
    Text.InsertPlaceholder("id", data);
    DashNameInserted(data);
    Text.InsertConcat(":id", "-:name", data);
  }

  lemma IdNameSlugged()
    ensures Inflector.Slug("123-abc", '-') == "123-abc"
  {
    Inflector.SlugOfTwoWords("123", "-", "abc", "", '-');
    Spellings();
  }

  lemma DescriptionInserted()
    ensures Text.Insert(":description", PatternData) == "Hello, World!"
  {
    Spellings();
    Text.InsertPlaceholder("description", PatternData);
  }

  lemma DescriptionSlugged()
    ensures Inflector.Slug("Hello, World!", '-') == "Hello-World"
  {
    Inflector.SlugOfTwoWords("Hello", ", ", "World", "!", '-');
    Spellings();
  }

  /** Placeholders are replaced by the record's values before slugging, and
      punctuation at the end of a value leaves no trailing separator
      (tests/TestCase/Utility/SlugTest.php:26-39; the entity variant at lines
      41-54 passes the same fields). */
  lemma PatternedSlugExamples()
    ensures Slug.Generate(":id-:name", PatternData) == "123-abc"
    ensures Slug.Generate(":description", PatternData) == "hello-world"
  {
    IdNameInserted(PatternData);
    IdNameSlugged();
    DescriptionInserted();
    DescriptionSlugged();
    LowerCases();
  }

  lemma DrWhoSlugged(sep: char)
    requires !IsAlnum(sep)
    ensures Inflector.Slug("dr who", sep) == "dr" + [sep] + "who"
  {
    Inflector.SlugOfTwoWords("dr", " ", "who", "", sep);
    Spellings();
  }

  /** The replacement argument is the separator written between words
      (tests/TestCase/Utility/SlugTest.php:56-60). */
  lemma ReplacementExample()
    ensures Slug.Generate("dr who", map[], '.') == "dr.who"
  {
    Text.InsertEmpty("dr who");
    DrWhoSlugged('.');
    Spellings();
    LowerCases();
  }
}
