# Hominid::Base in Dafny

A model of `Hominid::Base`, the core of the Hominid client for the MailChimp 1.2 API
(`lib/hominid/base.rb`). It covers five pieces:

- **Construction** (`Client`). The API key must be present and must contain `-`. The data
  center is `api_key.split('-').last`. The XML-RPC URL is `http(s)://<dc>.api.mailchimp.com/1.2/`.
  The export endpoint is `<dc>.api.mailchimp.com` on port 80 or 443. The stored
  configuration is the defaults table merged with the user's configuration.
  `apply_defaults_to` merges options over it.
- **Dispatch** (`Dispatch`). `call` sends the method name with the API key in front of the
  caller's arguments. It maps every failure to an error: fault codes by range, a
  "Wrong type!" RuntimeError to a CommunicationError, any other RuntimeError re-raised
  as is, and any other exception to a CommunicationError.
- **Export** (`Export`). `call_export` builds the export URI and decodes the body. Line 0
  gives the header keys, with spaces turned into `_`. Each later line gives one record,
  built by zipping the keys with the line's cells.
- **Merge tags** (`MergeTags`). `clean_merge_tags` removes vertical tabs from String
  values and turns nil values into `''`. It does this in place, in the caller's Hash.
- **Projection** (`Projection`). `hash_to_object` turns Hashes into objects over converted
  values, and Arrays into converted copies.

`Ruby` holds the Ruby values and the core-library behaviour the code relies on: truthiness,
`split` (which drops trailing empty fields), `join`, ASCII `downcase` and substring matching.

The model is pure except where the source changes state. `Client.Base` is a class whose
fields are the three instance variables `initialize` sets; `Client.Initialize` either
raises (returns an error) before any object exists or builds one. `MergeTags.CleanMergeTags`
updates a `TagHash` object in place. `Export.DecodeExport` and `Projection.HashToObject`
(with its two branches `HashToFields` and `ArrayToElems`) are methods with the source's
loops. Each loop is proved against a function: `CleanEntries`, `DecodeLines` and `Projected`.

The remote sides are parameters. `Dispatch.Call` takes the XML-RPC client as a function
from the client's RPC URL, a method name and arguments to an `Outcome`. `Export.CallExport`
takes the HTTP GET as a function from the client's export endpoint and a URI to the
decoded lines of the body. So the endpoints fixed at construction are where each request
goes.

The code behaves in some places differently from what one might expect; the model
follows the code:

- The "Wrong type!" message does not list nil-valued keys. In the block `|k, v|` at
  line 60 Ruby binds `k` to the whole Hash and `v` to nil. So each Hash argument adds one
  `"<hash> is Nil."` fragment, and a CommunicationError is raised even when there are no
  Hash arguments (message `""`).
- A data row shorter than the header does not lose the missing keys. `zip` pairs them
  with nil. Only cells beyond the header are dropped.
- The data center is not always the text after the last `-`. `split` drops trailing
  empty fields, so `abc-us1-` gives `us1`, and a key made only of dashes gives `""`.
- For a key that is not lower-case, `hash_to_object` keeps the original key as well as
  adding the downcased one (line 108).

## Model

| member | source | states |
|---|---|---|
| `Ruby.Fields` | lib/hominid/base.rb:16 | the fields between separators contain no separator; there is at least one; the last is non-empty when the text does not end with the separator |
| `Ruby.JoinFields` | lib/hominid/base.rb:16 | joining the fields with the separator gives back the original key (round trip) |
| `Ruby.Split` | lib/hominid/base.rb:16 | `split` gives a prefix of the fields that ends in a non-empty field (or is empty), and only empty fields are dropped after it; `SplitKeepsFields` and `JoinFields` state the rest |
| `Ruby.DropTrailingEmpty` | lib/hominid/base.rb:16 | `split`'s result is a prefix of the fields: only empty fields are dropped, and the last field kept is non-empty |
| `Ruby.SplitKeepsFields` | lib/hominid/base.rb:16 | a key not ending in `-` splits into all of its fields |
| `Ruby.Downcase` | lib/hominid/base.rb:108 | downcase keeps the length and lowers each ASCII letter in place |
| `Ruby.DowncaseFixesLowerCase` | lib/hominid/base.rb:108 | downcase leaves a key unchanged if and only if the key has no upper-case letter |
| `Ruby.DowncaseIdempotent` | lib/hominid/base.rb:108 | downcased text is lower-case, so downcasing it again changes nothing |
| `Client.DataCenter` | lib/hominid/base.rb:16 | the data center never contains `-` |
| `Client.DataCenterIsLastSegment` | lib/hominid/base.rb:16 | for a key that does not end in `-`, the data center is exactly the text after the last `-` |
| `Client.DataCenterIgnoresTrailingDash` | lib/hominid/base.rb:16 | a trailing `-` does not change the data center |
| `Client.DataCenterExample` | lib/hominid/base.rb:16 | `abc-us1` has data center `us1` |
| `Client.RpcUrlInjective` | lib/hominid/base.rb:28-34 | two RPC URLs are equal only for the same data center and the same scheme |
| `Client.RpcUrl` | lib/hominid/base.rb:29-32 | the URL starts with the scheme (`https://` when secure, `http://` otherwise) followed by the data center, and ends with `.api.mailchimp.com/1.2/`; `RpcUrlInjective` and `SchemeMatchesPort` relate it to the endpoint |
| `Client.ExportEndpoint` | lib/hominid/base.rb:30-33 | the port is 443 when secure and 80 otherwise; the host is the data center followed by `.api.mailchimp.com` |
| `Client.SchemeMatchesPort` | lib/hominid/base.rb:28-34 | the export port is 443 exactly when the RPC URL is https, and 80 exactly when it is http |
| `Client.CheckKey` | lib/hominid/base.rb:14-15 | a missing or falsy key fails with the missing-key error; a String key without `-` (or an Array or Hash without a `"-"` entry) fails as malformed; the check passes exactly for a String key containing `-`, and gives that key |
| `Client.Base.constructor` | lib/hominid/base.rb:16-34 | the new client holds the key; its configuration is the defaults merged with the user's; its RPC URL and export endpoint use the key's data center and the user's `secure` flag |
| `Client.Initialize` | lib/hominid/base.rb:13-35 | construction fails exactly when the key check fails, with the same error and before any object exists; otherwise a new client whose configuration has every default key and every user key, the user's value wherever given and the default otherwise, and whose endpoints follow the data center and `secure` |
| `Client.MalformedKeyExample` | lib/hominid/base.rb:15 | the key `abc123` is rejected as malformed |
| `Client.WellFormedKeyExample` | lib/hominid/base.rb:13-34 | the key `abc-us1` passes the check, with URL `http://us1.api.mailchimp.com/1.2/` |
| `Client.RpcUrlExample` | lib/hominid/base.rb:32 | the insecure RPC URL for data center `us1` is `http://us1.api.mailchimp.com/1.2/` |
| `Client.ApplyDefaultsTo` | lib/hominid/base.rb:37-39 | the result has every key of either map; options win, and the stored configuration fills the rest |
| `Dispatch.Classify` | lib/hominid/base.rb:45-56 | every fault code gets exactly one kind: 100-199 User, 200-299 List, 300-399 Campaign, 500-599 Validation, any other code API (each as an if-and-only-if) |
| `Dispatch.HashArguments` | lib/hominid/base.rb:59 | as a set, the selection holds exactly the Hash arguments: all of them when every argument is a Hash, none when none is |
| `Dispatch.HashArgumentsAppend` | lib/hominid/base.rb:59 | selecting distributes over concatenation, so the selection keeps the Hash arguments in their order and with their repetitions |
| `Dispatch.WrongTypeMessage` | lib/hominid/base.rb:59-61 | the message is empty when no argument is a Hash; `WrongTypeMessageAppend`, `WrongTypeMessageEmpty` and `WrongTypeMessageOneHash` give the rest |
| `Dispatch.WrongTypeMessageAppend` | lib/hominid/base.rb:59-60 | the message grows one argument at a time: a non-Hash adds nothing; a Hash adds `"<hash> is Nil."`, after a single space if a fragment came before |
| `Dispatch.WrongTypeMessageEmpty` | lib/hominid/base.rb:58-61 | the message is empty if and only if no argument is a Hash |
| `Dispatch.WrongTypeMessageOneHash` | lib/hominid/base.rb:59-61 | a lone Hash argument gives exactly `"<hash> is Nil."`, whatever the Hash holds |
| `Dispatch.Classified` | lib/hominid/base.rb:41-67 | a value comes back if and only if the call returned one; a fault becomes the error kind of its code, with the same code and message; a RuntimeError is re-raised unchanged if and only if its message lacks `Wrong type!`; a CommunicationError comes if and only if the failure is some other exception (same message) or a `Wrong type!` RuntimeError (the Hash message) |
| `Dispatch.RemoteArguments` | lib/hominid/base.rb:42 | the remote call gets one more argument than the caller passed: the API key first, then the caller's arguments in order |
| `Dispatch.Call` | lib/hominid/base.rb:41-67 | the transport is asked at the client's RPC URL, with the API key before the caller's arguments; a value comes back exactly when the call returned one; a fault error carries the fault's code and message and the kind of its code; a re-raised error is the RuntimeError's message; `Classified`, `CallAsksOnce` and `FaultsAreClassifiedByCode` give the rest |
| `Dispatch.CallAsksOnce` | lib/hominid/base.rb:42 | `call` depends on the transport only through its answer, at the client's RPC URL, to the method name with the stored `api_key` before the caller's arguments |
| `Dispatch.FaultsAreClassifiedByCode` | lib/hominid/base.rb:41-56 | a fault from the transport raises the error kind of its code, with that code and message |
| `Export.ExportUri` | lib/hominid/base.rb:11-72 | the URI starts with `/export/1.0/list/?apikey=<key>&id=<list>`; it is exactly that when there is no status, and otherwise has `&status=<status>` after it |
| `Export.ExportUriExample` | lib/hominid/base.rb:70 | a concrete URI without status |
| `Export.Underscored` | lib/hominid/base.rb:81 | same length; no space is left; every space becomes `_` and everything else stays |
| `Export.HeaderKeys` | lib/hominid/base.rb:81 | the header decodes if and only if every cell is a String; the keys are the underscored cells, one per cell, in order; otherwise the error names the first cell that is not a String |
| `Export.ZipRecord` | lib/hominid/base.rb:84 | the record's keys are exactly the header keys |
| `Export.RecordLastOccurrenceWins` | lib/hominid/base.rb:84 | a key gets the cell at its last position in the header, or nil when the row is shorter |
| `Export.RecordDropsExtraCells` | lib/hominid/base.rb:84 | cells beyond the header's length do not affect the record |
| `Export.DecodeRows` | lib/hominid/base.rb:79-86 | decoded data lines give one record per line; `DecodeRowsSucceeds`, `DecodeRowsSnoc`, `DecodeRowsFailAppend` and `DecodeRowsFirstFailure` give the rest |
| `Export.DecodeLines` | lib/hominid/base.rb:75-87 | an empty body gives no records, and a body of n lines that decodes gives n-1; `DecodeLinesRecords` gives the rest |
| `Export.DecodeRowsSucceeds` | lib/hominid/base.rb:79-86 | the data lines decode if and only if each of them parses, into one record per line, in order |
| `Export.DecodeRowsSnoc` | lib/hominid/base.rb:83-84 | one more parsed data line appends its zipped record at the end of the records so far |
| `Export.DecodeRowsFailAppend` | lib/hominid/base.rb:84-89 | after data lines that decode, a line that fails to parse is the error, whatever lines follow |
| `Export.DecodeRowsFirstFailure` | lib/hominid/base.rb:79-89 | the first line that fails to parse decides the error |
| `Export.DecodeLinesRecords` | lib/hominid/base.rb:75-87 | an empty body gives `[]`; a body decodes if and only if the header parses with String cells and every later line parses; then n lines give n-1 records, record i pairing the keys with line i+1 |
| `Export.DecodeExample` | lib/hominid/base.rb:79-86 | the header `["Email","First Name"]` and the row `["a@b.com","Al"]` give the record `{Email: "a@b.com", First_Name: "Al"}` |
| `Export.DecodeExport` | lib/hominid/base.rb:75-87 | the `each_with_index` loop computes exactly the decoding of the body, success and first failure alike |
| `Export.CallExport` | lib/hominid/base.rb:69-90 | the GET goes to the export URI at the client's export endpoint; every failure (transport, parse, non-String header) becomes a CommunicationError with the underlying message; otherwise the records of the body come back |
| `MergeTags.WithoutVerticalTabs` | lib/hominid/base.rb:96 | no vertical tab remains; every other character keeps its count; text without vertical tabs is unchanged |
| `MergeTags.WithoutVerticalTabsChar` | lib/hominid/base.rb:96 | one character is removed if it is a vertical tab and kept otherwise |
| `MergeTags.WithoutVerticalTabsAppend` | lib/hominid/base.rb:96 | removal works piece by piece, so the kept characters stay in their order (with the one-character case this fixes the result) |
| `MergeTags.Cleaned` | lib/hominid/base.rb:92-101 | the result is always a Hash: empty for a non-Hash argument, with the same keys for a Hash; `CleanedEntries` and `CleanedIdempotent` give the rest |
| `MergeTags.CleanedEntries` | lib/hominid/base.rb:92-101 | a non-Hash gives `{}`; the keys are unchanged; no value is nil; no String value keeps a vertical tab; nil becomes `''`; a String becomes the String with its vertical tabs removed; all other values are untouched |
| `MergeTags.CleanEntriesFixedPoints` | lib/hominid/base.rb:94-100 | cleaning leaves a Hash unchanged if and only if every value is already clean (not nil, and no vertical tab in a String) |
| `MergeTags.CleanedIdempotent` | lib/hominid/base.rb:92-101 | cleaning twice gives the same result as cleaning once |
| `MergeTags.CleanedExample` | lib/hominid/base.rb:92-101 | `{x: "a\vb", y: nil}` becomes `{x: "ab", y: ""}` |
| `MergeTags.CleanMergeTags` | lib/hominid/base.rb:92-101 | for a Hash, the same Hash object is returned, and its entries are now the cleaned entries of the old ones; any other argument gives a new empty Hash |
| `Projection.Projected` | lib/hominid/base.rb:103-117 | values that are neither Hash nor Array come back unchanged; an Array gives an Array of the same length; a Hash gives an object with the same keys |
| `Projection.ProjectedShape` | lib/hominid/base.rb:103-117 | converting a response leaves no Hash at any depth; lower-case Hash keys give lower-case object fields at every depth |
| `Projection.ProjectedFixesHashFree` | lib/hominid/base.rb:111-116 | a value with no Hash in it converts to itself |
| `Projection.ProjectedIdempotent` | lib/hominid/base.rb:103-117 | converting a converted response changes nothing |
| `Projection.ProjectedExample` | lib/hominid/base.rb:103-117 | `{"key" => {"nested" => 1}}` becomes an object whose `key` is an object whose `nested` is 1 |
| `Projection.HashToObject` | lib/hominid/base.rb:103-117 | scalars come back unchanged; Arrays keep their length; a Hash gives an object whose fields are its keys plus their downcased forms; for lower-case keys at every depth the result is exactly the conversion |
| `Projection.HashToFields` | lib/hominid/base.rb:105-110 | the `each` loop over the cloned Hash leaves the original keys and adds each downcased key; with lower-case keys it gives exactly the converted fields |
| `Projection.ArrayToElems` | lib/hominid/base.rb:111-113 | the `map!` over the cloned Array keeps the length; with lower-case keys it gives exactly the converted elements |

## Left out

- Building `XMLRPC::Client` and `Net::HTTP`, and every network round trip, are not modelled. The remote call and the GET are function parameters (`transport`, `get`).
- JSON parsing (RFC 8259) is not modelled. Each body line arrives already decoded, as an array of values or as a parse failure. A line whose JSON is not an array is outside `Export.Line`. JSON numbers are integers only; floating point is not modelled.
- The choice between `body.lines` and `to_s` is a Ruby-version shim. The body is taken as its sequence of lines.
- OpenStruct's dynamic accessors are not modelled. An object is `Obj`, a constructor over a map of fields.
- How Ruby renders a Hash as text (`Hash#to_s`, in the "is Nil." message) is a parameter `render`. The text of the NoMethodError for a non-String header cell is a parameter `describe`. The messages of the construction errors are not modelled: `Client.InitError` names which guard failed.
- The exception classes are reduced to error datatypes. The message formats that `UserError` and its siblings build from a fault are in files that are not part of this model; the model keeps the fault's code and message. `freeze` is not modelled.
- The included modules `Campaign`, `Helper`, `List` and `Security` are not part of this model.
- Ruby Hashes are modelled as maps: insertion order is not kept, and keys are strings. Symbols such as `:api_key` are written by name, so Symbol and String keys are not told apart.
- `MergeTags.CleanMergeTags` treats only the top-level Hash as an object that can be updated in place. Hashes nested in its values are plain values. The method requires that a non-Hash argument is not itself a Hash value; that rule only keeps the two argument forms apart.
- `Export.DecodeExport` and `Export.CallExport`: stated only for bodies whose data lines have no Array cells (`FlatRows`). `.flatten` at line 84 is deep, so an Array cell would be spread into the key/value list.
- `Projection.HashToObject`: says only the keys of the result, not its values, when some Hash key is not lower-case. In that case line 108 adds a key to the Hash it is iterating over. Current Ruby rejects that, and older Ruby gives values that depend on iteration order. The same holds for `Projection.HashToFields`.
- Values are immutable here, so "the input is never mutated" holds by construction; the clones at lines 106 and 112 are the starting values of the loops.
- `Projection.ProjectedShape` and `Projection.ProjectedIdempotent` are stated for responses with no OpenStruct inside, because `hash_to_object` passes an OpenStruct through untouched, including any Hash inside it.
- `Client.CheckKey`: for an Array or Hash key, `include?('-')` decides between the malformed-key error and the NoMethodError from `split`; the model follows this, and calls the NoMethodError `ApiKeyNotString`.
- `Ruby.Downcase` lowers only the ASCII letters `A`-`Z`, as `String#downcase` did before Ruby 2.4; the full Unicode case mapping of later versions is not modelled.
- There is no concurrency in this code.
