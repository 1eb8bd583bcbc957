/**
 * The part of the `producer` subcommand that does not talk to the broker:
 * collecting the parsed `--header` arguments into a header list and building
 * the outgoing record.
 */
module Producer {
  import opened Wrappers
  import opened HeaderArg

  /** Rust's `i32`, the partition number's type. */
  newtype Int32 = x: int | -0x8000_0000 <= x < 0x8000_0000

  /** One entry of the client library's header list: a key and an optional value. */
  datatype Header = Header(key: string, value: Option<string>)

  /**
   * The client library's owned header list. `insert` takes the list by value
   * and returns the extended one, so the list is a value here too.
   */
  datatype OwnedHeaders = OwnedHeaders(entries: seq<Header>)
  {
    /** `OwnedHeaders::insert`: appends one entry at the end. */
    function Insert(h: Header): OwnedHeaders
    {
      OwnedHeaders(entries + [h])
    }

    /** `Headers::count`. */
    function Count(): nat
    {
      |entries|
    }
  }

  /** The options of the `producer` subcommand once parsed. */
  datatype ProducerArgs = ProducerArgs(
    partition: Option<Int32>,
    payload: Option<string>,
    key: Option<string>,
    header: seq<MessageHeaderArg>)

  /** The record handed to the client library's `send`. */
  datatype FutureRecord = FutureRecord(
    topic: string,
    partition: Option<Int32>,
    payload: Option<string>,
    key: Option<string>,
    timestamp: Option<int>,
    headers: Option<OwnedHeaders>)

  /** The header entry one parsed argument turns into: its name and `value.as_deref()`. */
  function ToHeader(arg: MessageHeaderArg): Header
  {
    Header(arg.name, arg.value)
  }

  /** The header entries for a sequence of parsed arguments, one per argument, in order. */
  function HeadersOf(args: seq<MessageHeaderArg>): (r: seq<Header>)
    ensures |r| == |args|
    ensures forall i :: 0 <= i < |args| ==> r[i].key == args[i].name && r[i].value == args[i].value
  {
    if args == [] then [] else [ToHeader(args[0])] + HeadersOf(args[1..])
  }

  /** Order is kept across concatenation: the entries for `a + b` are those for `a`, then those for `b`. */
  lemma {:induction false} HeadersOfAppend(a: seq<MessageHeaderArg>, b: seq<MessageHeaderArg>)
    ensures HeadersOf(a + b) == HeadersOf(a) + HeadersOf(b)
  {
    if a == [] {
      assert a + b == b;
    } else {
      assert (a + b)[1..] == a[1..] + b;
      HeadersOfAppend(a[1..], b);
    }
  }

  /**
   * The header loop of `producer` and the non-empty check after it: the
   * arguments are inserted one by one, and the list is attached only when it
   * holds at least one entry.
   */
  method CollectHeaders(args: seq<MessageHeaderArg>) returns (headers: Option<OwnedHeaders>)
    ensures headers.Some? <==> |args| > 0
    ensures headers.Some? ==> headers.value.entries == HeadersOf(args)
  {
    var acc := OwnedHeaders([]);
    for i := 0 to |args|
      invariant acc.entries == HeadersOf(args[..i])
    {
      HeadersOfAppend(args[..i], [args[i]]);
      assert args[..i + 1] == args[..i] + [args[i]];
      acc := acc.Insert(ToHeader(args[i]));
    }
    assert args[..|args|] == args;
    headers := if acc.Count() > 0 then Some(acc) else None;
  }

  /**
   * The `FutureRecord` built by `producer`: topic, partition, payload and key
   * passed through, no timestamp, and the header list when there is one.
   */
  method BuildRecord(topic: string, args: ProducerArgs) returns (record: FutureRecord)
    ensures record.topic == topic
    ensures record.partition == args.partition
    ensures record.payload == args.payload
    ensures record.key == args.key
    ensures record.timestamp == None
    ensures record.headers.Some? <==> |args.header| > 0
    ensures record.headers.Some? ==> record.headers.value.entries == HeadersOf(args.header)
  {
    var headers := CollectHeaders(args.header);
    record := FutureRecord(
      topic := topic,
      partition := args.partition,
      payload := args.payload,
      key := args.key,
      timestamp := None,
      headers := headers);
  }

  /** Each raw `--header` token parsed with `FromStr`, in the order given on the command line. */
  function ParseAll(tokens: seq<string>): (r: seq<MessageHeaderArg>)
    ensures |r| == |tokens|
    ensures forall i :: 0 <= i < |tokens| ==> Ok(r[i]) == FromStr(tokens[i])
  {
    if tokens == [] then [] else [FromStr(tokens[0]).value] + ParseAll(tokens[1..])
  }

  /** The header entry written back as a `name=value` or `name` token. */
  function HeaderToken(h: Header): string
  {
    ToToken(MessageHeaderArg(h.key, h.value))
  }

  /**
   * Nothing is lost between the command line and the header list: entry `i`
   * is written exactly as the `i`-th `--header` token was, duplicates included.
   */
  lemma HeaderTokensKept(tokens: seq<string>)
    ensures |HeadersOf(ParseAll(tokens))| == |tokens|
    ensures forall i :: 0 <= i < |tokens| ==> HeaderToken(HeadersOf(ParseAll(tokens))[i]) == tokens[i]
  {
    var args := ParseAll(tokens);
    forall i | 0 <= i < |tokens|
      ensures HeaderToken(HeadersOf(args)[i]) == tokens[i]
    {
      ToTokenFromStr(tokens[i]);
      assert MessageHeaderArg(HeadersOf(args)[i].key, HeadersOf(args)[i].value) == args[i];
    }
  }

  /** `--header a=1 --header b=2 --header a` gives three entries in that order, the repeated name kept. */
  lemma HeaderOrderExample()
    ensures HeadersOf(ParseAll(["a=1", "b=2", "a"])) ==
      [Header("a", Some("1")), Header("b", Some("2")), Header("a", None)]
  {
    FromStrSplitsAtLast("a", "1");
    assert "a" + [Separator] + "1" == "a=1";
    FromStrSplitsAtLast("b", "2");
    assert "b" + [Separator] + "2" == "b=2";
    assert Separator !in "a";
  }
}
