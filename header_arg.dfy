/**
 * The `--header` argument of the `producer` subcommand: a raw token is split
 * at its last `=` into a header name and an optional header value.
 */
module HeaderArg {
  import opened Wrappers

  /** One parsed `--header` occurrence. */
  datatype MessageHeaderArg = MessageHeaderArg(name: string, value: Option<string>)

  /**
   * Stand-in for `std::convert::Infallible`. Dafny has no empty type that can
   * be declared here, so it carries one value; `FromStr` is proved never to
   * return it.
   */
  datatype Infallible = Infallible

  const Separator: char := '='

  /** Index of the last occurrence of `c` in `s`, as `str::rfind` gives it. */
  function RFind(s: string, c: char): (r: Option<nat>)
    ensures r.None? <==> c !in s
    ensures r.Some? ==> r.value < |s| && s[r.value] == c && c !in s[r.value + 1..]
    decreases |s|
  {
    if |s| == 0 then None
    else if s[|s| - 1] == c then Some(|s| - 1)
    else
      var r := RFind(s[..|s| - 1], c);
      assert r.Some? ==> s[r.value + 1..] == s[..|s| - 1][r.value + 1..] + [s[|s| - 1]];
      assert s == s[..|s| - 1] + [s[|s| - 1]];
      r
  }

  /**
   * `str::rsplit_once(c)`: the text before and after the last `c`, or `None`
   * when `c` does not occur.
   */
  function RSplitOnce(s: string, c: char): (r: Option<(string, string)>)
    ensures r.None? <==> c !in s
    ensures r.Some? ==> r.value.0 + [c] + r.value.1 == s && c !in r.value.1
  {
    match RFind(s, c)
    case None => None
    case Some(i) =>
      assert s == s[..i] + [c] + s[i + 1..];
      Some((s[..i], s[i + 1..]))
  }

  /** `MessageHeaderArg::from_str`. */
  function FromStr(s: string): (r: Result<MessageHeaderArg, Infallible>)
    ensures r.Ok?
    ensures Separator in s ==>
      r.value.value.Some? && Separator !in r.value.value.value &&
      r.value.name + [Separator] + r.value.value.value == s
    ensures Separator !in s ==> r.value == MessageHeaderArg(s, None)
  {
    match RSplitOnce(s, Separator)
    case Some((name, value)) => Ok(MessageHeaderArg(name, Some(value)))
    case None => Ok(MessageHeaderArg(s, None))
  }

  /** The raw token a header argument is written as: `name=value` or `name`. */
  function ToToken(h: MessageHeaderArg): string
  {
    match h.value
    case Some(v) => h.name + [Separator] + v
    case None => h.name
  }

  /**
   * The header arguments `FromStr` can produce: a present value holds no
   * `=`, and a name without a value holds no `=` either.
   */
  predicate WellFormed(h: MessageHeaderArg)
  {
    match h.value
    case Some(v) => Separator !in v
    case None => Separator !in h.name
  }

  /** Any split of `s` at an occurrence of `c` with no `c` after it is the one `RSplitOnce` finds. */
  lemma RSplitOnceUnique(s: string, c: char, before: string, after: string)
    requires s == before + [c] + after && c !in after
    ensures RSplitOnce(s, c) == Some((before, after))
  {
    assert s[|before|] == c;
    var i := RFind(s, c).value;
    assert s[..i] == before;
    assert s[i + 1..] == after;
  }

  /** Splitting happens at the last `=`: every `=` before it stays in the name. */
  lemma FromStrSplitsAtLast(name: string, value: string)
    requires Separator !in value
    ensures FromStr(name + [Separator] + value) == Ok(MessageHeaderArg(name, Some(value)))
  {
    RSplitOnceUnique(name + [Separator] + value, Separator, name, value);
  }

  /** Parsing is total and never yields an error. */
  lemma FromStrTotal(s: string)
    ensures !FromStr(s).Err?
    ensures WellFormed(FromStr(s).value)
  {
  }

  /** Writing the parsed argument back as a token gives the original token. */
  lemma ToTokenFromStr(s: string)
    ensures ToToken(FromStr(s).value) == s
  {
  }

  /** Parsing the token of a well-formed header argument gives that argument back. */
  lemma FromStrToToken(h: MessageHeaderArg)
    requires WellFormed(h)
    ensures FromStr(ToToken(h)) == Ok(h)
  {
    match h.value
    case Some(v) => FromStrSplitsAtLast(h.name, v);
    case None =>
  }

  /** The documented examples: "a=b=c", "k=" and "noeq". */
  lemma FromStrExamples()
    ensures FromStr("a=b=c") == Ok(MessageHeaderArg("a=b", Some("c")))
    ensures FromStr("k=") == Ok(MessageHeaderArg("k", Some("")))
    ensures FromStr("noeq") == Ok(MessageHeaderArg("noeq", None))
  {
    FromStrSplitsAtLast("a=b", "c");
    assert "a=b" + [Separator] + "c" == "a=b=c";
    FromStrSplitsAtLast("k", "");
    assert "k" + [Separator] + "" == "k=";
    assert Separator !in "noeq";
  }

  /** An absent value and a present empty value stay distinct. */
  lemma AbsentIsNotEmpty(name: string)
    requires Separator !in name
    ensures FromStr(name).value.value == None
    ensures FromStr(name + [Separator]).value.value == Some("")
  {
    FromStrSplitsAtLast(name, "");
    assert name + [Separator] + "" == name + [Separator];
  }

  /** A token starting with its only `=` gives an empty name. */
  lemma EmptyNameAccepted(value: string)
    requires Separator !in value
    ensures FromStr([Separator] + value).value.name == ""
  {
    FromStrSplitsAtLast("", value);
    assert "" + [Separator] + value == [Separator] + value;
  }
}
