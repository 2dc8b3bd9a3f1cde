/** The greeting function of the `test_publish` package.

    `hello(name="World")` returns the text "Hello, " followed by the name,
    verbatim, followed by "!". Python's `str` is modelled as Dafny's `string`
    (a sequence of Unicode scalar values); the name is never trimmed, escaped
    or validated, so every string is an acceptable name. */
module Greeter {
  import opened Wrappers

  /** The fixed text in front of the name. */
  const Prefix: string := "Hello, "
  /** The fixed text after the name. */
  const Suffix: string := "!"
  /** The name used when the caller gives none. */
  const DefaultName: string := "World"

  /** `hello(name)` with the argument given explicitly: the greeting is seven
      characters of prefix, the name unchanged, and one closing '!'. */
  function Hello(name: string): (r: string)
    ensures |r| == |name| + |Prefix| + |Suffix|
    ensures r[..|Prefix|] == Prefix
    ensures r[|r| - |Suffix|..] == Suffix
    ensures r[|Prefix|..|r| - |Suffix|] == name
  {
    Prefix + name + Suffix
  }

  /** `hello(...)` with its default parameter: `None` stands for a call with
      no argument, which greets `DefaultName`. */
  function Greet(name: Option<string>): (r: string)
    ensures name.Some? ==> r == Hello(name.value)
    ensures name.None? ==> r == Hello(DefaultName)
  {
    Hello(name.GetOr(DefaultName))
  }

  /** `hello()`: the call without an argument. */
  function HelloDefault(): (r: string)
    ensures r == "Hello, World!"
  {
    Greet(None)
  }

  /** True exactly of the strings `Hello` can produce: long enough for the
      fixed text, beginning with the prefix and ending with the suffix. */
  predicate IsGreeting(s: string) {
    |s| >= |Prefix| + |Suffix| && s[..|Prefix|] == Prefix && s[|s| - |Suffix|..] == Suffix
  }

  /** The inverse of `Hello`: the name a greeting was made for, recovered by
      dropping the prefix and the suffix, or `None` for a string that is not
      a greeting. */
  function NameOf(s: string): (r: Option<string>)
    ensures r.Some? <==> IsGreeting(s)
    ensures r.Some? ==> Hello(r.value) == s
  {
    if IsGreeting(s) then
      Some(s[|Prefix|..|s| - |Suffix|])
    else
      None
  }

  /** Every output of `Hello` is a greeting. */
  lemma HelloIsGreeting(name: string)
    ensures IsGreeting(Hello(name))
  {
  }

  /** Round trip: the name can always be read back out of its greeting. */
  lemma NameOfHello(name: string)
    ensures NameOf(Hello(name)) == Some(name)
  {
  }

  /** `IsGreeting` describes exactly the range of `Hello`. */
  lemma GreetingIffInRange(s: string)
    ensures IsGreeting(s) <==> exists name :: Hello(name) == s
  {
    if IsGreeting(s) {
      assert Hello(NameOf(s).value) == s;
    }
  }

  /** Different names give different greetings. */
  lemma HelloInjective(a: string, b: string)
    ensures Hello(a) == Hello(b) <==> a == b
  {
  }

  /** The name appears in the greeting character for character, starting
      right after the prefix. */
  lemma HelloVerbatim(name: string, i: nat)
    requires i < |name|
    ensures Hello(name)[|Prefix| + i] == name[i]
  {
  }

  /** Examples that pin the function down at three points: the call without
      an argument, a non-empty name and the empty name. The first repeats
      `HelloDefault`'s own contract so that all three sit side by side. */
  lemma HelloExamples()
    ensures HelloDefault() == "Hello, World!"
    ensures Greet(Some("Python")) == "Hello, Python!"
    ensures Greet(Some("")) == "Hello, !"
  {
  }
}
