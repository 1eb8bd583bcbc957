# mirrord-kafka-demo: header arguments and the outgoing record

`mirrord-kafka-demo` is a small command-line tool for exercising one Kafka topic.
Its `producer` subcommand sends one message, and its `consumer` subcommand streams a topic.
Apart from glue over `clap`, `rdkafka` and `tokio`, the tool has two pieces of its own logic, both modelled here:

- **Parsing `--header` arguments** (`MessageHeaderArg::from_str`), in module `HeaderArg` (`header_arg.dfy`).
  A raw token is split at its *last* `=`. The text before it is the header name, and the text after it is a present value, which may be empty.
  A token with no `=` is all name, and its value is absent.
  Parsing never fails.
- **Header collection and record assembly** in `producer`, in module `Producer` (`producer.dfy`).
  Each parsed argument is inserted, in order, into the client library's header list.
  The list is attached only when it is non-empty.
  The `FutureRecord` passes topic, partition, payload and key through unchanged and has no timestamp.
  The loop is a method.
  Its loop invariant says the list built so far is `HeadersOf` of the processed prefix.
  The properties of `HeadersOf` are proved as lemmas.

`wrappers.dfy` holds `Option` and `Result`, which stand for Rust's types of the same names.
The `rdkafka` header list is modelled as a value holding a sequence of `(key, optional value)` entries.
This matches `OwnedHeaders::insert`, which takes the list by value and returns the extended list.

## Model

| member | source | states |
|---|---|---|
| `HeaderArg.RFind` | src/main.rs:70 | the index found is the last occurrence of the character: it holds the character and nothing after it does, and `None` is returned exactly when the character does not occur |
| `HeaderArg.RSplitOnce` | src/main.rs:70-72 | `None` exactly when the separator is absent; otherwise `before + [c] + after` rebuilds the input and `after` holds no separator |
| `HeaderArg.RSplitOnceUnique` | src/main.rs:70-71 | any split of the input at a separator with no separator after it is the very split `rsplit_once` returns |
| `HeaderArg.FromStr` | src/main.rs:66-77 | always `Ok`; with a `=` present, the value is present, holds no `=`, and `name + "=" + value` is the token; with no `=`, the name is the whole token and the value is absent |
| `HeaderArg.FromStrSplitsAtLast` | src/main.rs:70-71 | for a value with no `=`, parsing `name=value` gives exactly that name (earlier `=` included) and `Some(value)` |
| `HeaderArg.FromStrTotal` | src/main.rs:67-75 | no token yields an error, and every result is well formed (a present value has no `=`; a name without a value has no `=`) |
| `HeaderArg.ToTokenFromStr` | src/main.rs:70-73 | writing the parsed argument back as `name=value` or `name` gives the original token |
| `HeaderArg.FromStrToToken` | src/main.rs:70-73 | parsing the token of any well-formed header argument gives that argument back, so parsing is a bijection onto well-formed arguments |
| `HeaderArg.FromStrExamples` | src/main.rs:52-53 | `"a=b=c"` gives `("a=b", Some("c"))`, `"k="` gives `("k", Some(""))` and `"noeq"` gives `("noeq", None)` |
| `HeaderArg.AbsentIsNotEmpty` | src/main.rs:70-72 | `name` gives an absent value while `name=` gives a present empty one |
| `HeaderArg.EmptyNameAccepted` | src/main.rs:70-71 | a token that starts with its only `=` parses to an empty name |
| `Producer.HeadersOf` | src/main.rs:105-109 | one header entry per argument, and entry `i` carries argument `i`'s name and optional value unchanged |
| `Producer.HeadersOfAppend` | src/main.rs:105-109 | the entries for `a + b` are the entries for `a` followed by those for `b`, so input order is kept |
| `Producer.CollectHeaders` | src/main.rs:104-111 | the header list is `Some` exactly when at least one argument was given, and then its entries are `HeadersOf` the arguments, in order |
| `Producer.BuildRecord` | src/main.rs:104-120 | the record's topic, partition, payload and key equal the inputs, its timestamp is absent, and its headers are as `CollectHeaders` states |
| `Producer.ParseAll` | src/main.rs:57 | one parsed argument per raw `--header` token, in order, each the `FromStr` result of its token |
| `Producer.HeaderTokensKept` | src/main.rs:105-109 | entry `i` of the header list, written back as a token, is the `i`-th `--header` token, with duplicates kept |
| `Producer.HeaderOrderExample` | src/main.rs:104-110 | `--header a=1 --header b=2 --header a` gives entries `a=1`, `b=2`, `a` (no value), in that order |

## Where the description and the code differ

One description of the tool says a header name is never empty after parsing.
The code does not ensure this.
The token `=v` gives the name `""` and the value `Some("v")`, and the empty token gives the name `""` with no value.
The model follows the code, and `HeaderArg.EmptyNameAccepted` states it.

## Left out

- `clap` argument parsing, environment-variable lookup and the subcommand dispatch in `main`. These are derive-macro library behaviour. `Producer.ParseAll` stands for clap applying `FromStr` to each `--header` occurrence.
- Building the `rdkafka` clients and their configuration, `send` with its 5-second timeout, `subscribe`, `recv`, `commit_message` and `unassign`. These are network I/O and foreign calls.
- The consumer loop's `tokio::select!` race against SIGTERM. It is async signal and message concurrency.
- The `println!` diagnostics and the `String::from_utf8_lossy` display decoding. They are output formatting.
- Exit status on `expect` panics, and `Duration` construction. These are runtime plumbing.
- `HeaderArg.FromStr`: the error type `Infallible` has no values in Rust. Dafny here cannot declare an empty type, so `Infallible` has one value, and `FromStr` is proved always to return `Ok`.
- `Producer.BuildRecord`: payload and key are the `&str` views that `as_deref` gives. They are kept as strings, and their byte encoding in the client library is not modelled. The borrow of the topic name is a plain copy of the string.
