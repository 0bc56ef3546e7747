/**
 * `main.py`, the quickstart server: an addition tool, a greeting resource and
 * a greeting prompt whose wording depends on a requested style.
 */
module Quickstart {
  import opened Wrappers

  /** `add(a, b)`: Python integers are unbounded, so the sum never wraps. */
  function Add(a: int, b: int): (sum: int)
    ensures sum - a == b && sum - b == a
  {
    a + b
  }

  /** Adding is commutative, since `add` returns `a + b` for any integers. */
  lemma AddCommutative(a: int, b: int)
    ensures Add(a, b) == Add(b, a)
  {
  }

  /** `get_greeting(name)`: the resource `greeting://{name}`. */
  function GetGreeting(name: string): (greeting: string)
    ensures |greeting| == |name| + 8
    ensures greeting[..7] == "Hello, " && greeting[7..|greeting| - 1] == name && greeting[|greeting| - 1] == '!'
  {
    "Hello, " + name + "!"
  }

  /** The name a greeting addresses, read back from the greeting. */
  function ParseGreeting(greeting: string): (name: Option<string>)
  {
    if |greeting| >= 8 && greeting[..7] == "Hello, " && greeting[|greeting| - 1] == '!' then
      Some(greeting[7..|greeting| - 1])
    else None
  }

  /** Reading a greeting back gives the name it was made for, and only greetings read back. */
  lemma GreetingRoundTrip(name: string, greeting: string)
    ensures ParseGreeting(GetGreeting(name)) == Some(name)
    ensures ParseGreeting(greeting) == Some(name) ==> GetGreeting(name) == greeting
  {
    if ParseGreeting(greeting) == Some(name) {
      assert greeting == greeting[..7] + greeting[7..|greeting| - 1] + [greeting[|greeting| - 1]];
    }
  }

  /**
   * The phrases of `greet_user`, by style. Each is written as two shorter
   * literals so that the verifier can evaluate its characters, which
   * `PhraseMarksStyle` compares.
   */
  const Styles: map<string, string> := map[
    "friendly" := "Please write a " + "warm, friendly greeting",
    "formal" := "Please write a " + "formal, professional greeting",
    "casual" := "Please write a " + "casual, relaxed greeting"
  ]

  /** `styles.get(style, styles['friendly'])`: an unknown style falls back to "friendly". */
  function StyleUsed(style: string): (used: string)
    ensures used in Styles
    ensures style in Styles ==> used == style
    ensures style !in Styles ==> used == "friendly"
  {
    if style in Styles then style else "friendly"
  }

  const NamedSuffix := " for someone named "

  /** `greet_user(name, style)`. */
  function GreetUser(name: string, style: string := "friendly"): (prompt: string)
    ensures var phrase := Styles[StyleUsed(style)];
      |prompt| == |phrase| + |NamedSuffix| + |name| + 1 && prompt[..|phrase|] == phrase
    ensures prompt[|prompt| - |name| - 20..] == NamedSuffix + name + "."
  {
    Styles[StyleUsed(style)] + NamedSuffix + name + "."
  }

  /** Each phrase differs from the others at index 15, where the first adjective starts. */
  lemma PhraseMarksStyle(k1: string, k2: string)
    requires k1 in Styles && k2 in Styles && Styles[k1][15] == Styles[k2][15]
    ensures k1 == k2
  {
  }

  /** A greeting prompt determines both the name and the style that was used. */
  lemma GreetUserInjective(name1: string, style1: string, name2: string, style2: string)
    requires GreetUser(name1, style1) == GreetUser(name2, style2)
    ensures name1 == name2 && StyleUsed(style1) == StyleUsed(style2)
  {
    var p := GreetUser(name1, style1);
    var phrase1, phrase2 := Styles[StyleUsed(style1)], Styles[StyleUsed(style2)];
    assert p[15] == phrase1[15] && p[15] == phrase2[15];
    PhraseMarksStyle(StyleUsed(style1), StyleUsed(style2));
    assert p == phrase1 + (NamedSuffix + name1 + ".");
    assert p == phrase1 + (NamedSuffix + name2 + ".");
    assert name1 == p[|phrase1| + 19..|p| - 1] == name2;
  }
}
