// `Hominid::Base#call` (lib/hominid/base.rb:41-67): one XML-RPC call with the API key
// put before the caller's arguments, and the classification of whatever went wrong.
// The XML-RPC client is a parameter; so is the rendering of a Hash as text
// (Hash#to_s), which the "Wrong type!" message interpolates.

module Dispatch {
  import opened Ruby
  import Client

  /** What `@chimpApi.call` ends with: a value, an XMLRPC::FaultException, a
      RuntimeError, or any other exception. */
  datatype Outcome =
    | Returned(value: Value)
    | Fault(code: int, message: string)
    | RuntimeFailure(message: string)
    | OtherFailure(message: string)

  /** The error classes chosen by fault code. */
  datatype FaultKind = UserError | ListError | CampaignError | ValidationError | APIError

  /** What `call` raises: an error classified from a fault (which keeps the fault's
      code and message), a CommunicationError, or the RuntimeError itself, re-raised. */
  datatype CallError =
    | FaultError(kind: FaultKind, code: int, message: string)
    | CommunicationError(message: string)
    | Reraised(message: string)

  const WrongType := "Wrong type!"
  const NilSuffix := " is Nil."

  /** The `case error.faultCode` ladder. */
  function Classify(code: int): (k: FaultKind)
    ensures k == UserError <==> 100 <= code <= 199
    ensures k == ListError <==> 200 <= code <= 299
    ensures k == CampaignError <==> 300 <= code <= 399
    ensures k == ValidationError <==> 500 <= code <= 599
    ensures k == APIError <==> !(100 <= code <= 399 || 500 <= code <= 599)
  {
    if 100 <= code <= 199 then UserError
    else if 200 <= code <= 299 then ListError
    else if 300 <= code <= 399 then CampaignError
    else if 500 <= code <= 599 then ValidationError
    else APIError
  }

  /** `args.select{|a| a.is_a? Hash}`. */
  function HashArguments(args: seq<Value>): (hs: seq<Value>)
    ensures |hs| <= |args|
    ensures forall v :: v in hs <==> v in args && v.Hash?
    ensures (forall i :: 0 <= i < |args| ==> args[i].Hash?) ==> hs == args
    ensures (forall i :: 0 <= i < |args| ==> !args[i].Hash?) ==> hs == []
  {
    if |args| == 0 then []
    else
      var init := HashArguments(args[..|args| - 1]);
      assert args == args[..|args| - 1] + [args[|args| - 1]];
      if args[|args| - 1].Hash? then init + [args[|args| - 1]] else init
  }

  /** `select` keeps the arguments' order: selecting from two runs of arguments is
      selecting from each and putting the two selections together. */
  lemma {:induction false} HashArgumentsAppend(a: seq<Value>, b: seq<Value>)
    ensures HashArguments(a + b) == HashArguments(a) + HashArguments(b)
  {
    if |b| > 0 {
      var b0 := b[..|b| - 1];
      assert (a + b)[..|a + b| - 1] == a + b0;
      assert b[..|b| - 1] == b0;
      HashArgumentsAppend(a, b0);
    } else {
      assert a + b == a;
    }
  }

  /** One "<hash> is Nil." per Hash argument. The block `|k, v|` of line 60 is given
      a Hash, which Ruby does not spread over two parameters: `k` is the whole Hash
      and `v` is nil, so every Hash is selected, whatever it holds. */
  function NilFragments(hashes: seq<Value>, render: Value -> string): seq<string>
  {
    seq(|hashes|, i requires 0 <= i < |hashes| => render(hashes[i]) + NilSuffix)
  }

  /** The message of the CommunicationError raised for "Wrong type!". */
  function WrongTypeMessage(args: seq<Value>, render: Value -> string): (msg: string)
    ensures (forall i :: 0 <= i < |args| ==> !args[i].Hash?) ==> msg == ""
  {
    Join(NilFragments(HashArguments(args), render), " ")
  }

  /** The message is built up argument by argument: a non-Hash adds nothing, a Hash
      adds its fragment, after a single space when there was one before. */
  lemma WrongTypeMessageAppend(args: seq<Value>, v: Value, render: Value -> string)
    ensures WrongTypeMessage(args + [v], render) ==
      if !v.Hash? then WrongTypeMessage(args, render)
      else if HashArguments(args) == [] then render(v) + NilSuffix
      else WrongTypeMessage(args, render) + " " + render(v) + NilSuffix
  {
    var all := args + [v];
    assert all[..|all| - 1] == args;
    var hs := HashArguments(args);
    if v.Hash? {
      assert HashArguments(all) == hs + [v];
      NilFragmentsAppend(hs, v, render);
      JoinAppend(NilFragments(hs, render), render(v) + NilSuffix, " ");
    }
  }

  lemma NilFragmentsAppend(hs: seq<Value>, v: Value, render: Value -> string)
    ensures NilFragments(hs + [v], render) == NilFragments(hs, render) + [render(v) + NilSuffix]
    ensures |NilFragments(hs, render)| == |hs|
  {
  }

  /** The message is empty exactly when no argument is a Hash; the "Wrong type!" branch
      raises a CommunicationError even then. */
  lemma WrongTypeMessageEmpty(args: seq<Value>, render: Value -> string)
    ensures WrongTypeMessage(args, render) == "" <==> forall i :: 0 <= i < |args| ==> !args[i].Hash?
  {
    var hs := HashArguments(args);
    var fs := NilFragments(hs, render);
    if hs == [] {
      forall i | 0 <= i < |args| ensures !args[i].Hash? {
        assert args[i] in args;
      }
    } else {
      assert hs[0] in hs;
      var i :| 0 <= i < |args| && args[i] == hs[0];
      JoinEndsWithLast(fs, " ");
      assert fs[|fs| - 1][|fs[|fs| - 1]| - 1] == '.';
    }
  }

  lemma {:induction false} JoinEndsWithLast(parts: seq<string>, sep: string)
    requires |parts| > 0
    ensures |Join(parts, sep)| >= |parts[|parts| - 1]|
    ensures Join(parts, sep)[|Join(parts, sep)| - |parts[|parts| - 1]|..] == parts[|parts| - 1]
  {
  }

  /** A single Hash argument yields its own fragment alone. */
  lemma WrongTypeMessageOneHash(h: Value, others: seq<Value>, render: Value -> string)
    requires h.Hash?
    requires forall i :: 0 <= i < |others| ==> !others[i].Hash?
    ensures WrongTypeMessage(others + [h], render) == render(h) + NilSuffix
  {
    WrongTypeMessageAppend(others, h, render);
  }

  /** The `rescue` clauses of `call`, applied to the outcome of the remote call. */
  function Classified(outcome: Outcome, args: seq<Value>, render: Value -> string): (r: Result<Value, CallError>)
    ensures r.Ok? <==> outcome.Returned?
    ensures r.Ok? ==> r.value == outcome.value
    ensures (r.Err? && r.error.FaultError?) <==> outcome.Fault?
    ensures outcome.Fault? ==>
      r.error.kind == Classify(outcome.code) && r.error.code == outcome.code && r.error.message == outcome.message
    ensures (r.Err? && r.error.Reraised?) <==> outcome.RuntimeFailure? && !Contains(outcome.message, WrongType)
    ensures r.Err? && r.error.Reraised? ==> r.error.message == outcome.message
    ensures (r.Err? && r.error.CommunicationError?) <==>
      outcome.OtherFailure? || (outcome.RuntimeFailure? && Contains(outcome.message, WrongType))
    ensures outcome.OtherFailure? ==> r.error.message == outcome.message
    ensures outcome.RuntimeFailure? && Contains(outcome.message, WrongType) ==>
      r.error.message == WrongTypeMessage(args, render)
  {
    match outcome
    case Returned(v) => Ok(v)
    case Fault(code, message) => Err(FaultError(Classify(code), code, message))
    case RuntimeFailure(message) =>
      if Contains(message, WrongType) then Err(CommunicationError(WrongTypeMessage(args, render)))
      else Err(Reraised(message))
    case OtherFailure(message) => Err(CommunicationError(message))
  }

  /** `(@config[:api_key], *args)`: the positional arguments sent to the remote end. */
  function RemoteArguments(apiKey: string, args: seq<Value>): (r: seq<Value>)
    ensures |r| == |args| + 1
    ensures r[0] == Str(apiKey) && r[1..] == args
  {
    [Str(apiKey)] + args
  }

  /** `call(name, *args)`, with the XML-RPC client as `transport`. */
  /** `call(name, *args)`. The XML-RPC client built at construction is `transport`
      applied to the client's RPC URL: it takes the URL, the method name and the
      positional arguments. */
  function Call(b: Client.Base, name: string, args: seq<Value>,
                transport: (string, string, seq<Value>) -> Outcome, render: Value -> string)
    : (r: Result<Value, CallError>)
    requires b.Valid()
    ensures var outcome := transport(b.chimpApi, name, [Str(b.ApiKey())] + args);
      && (r.Ok? <==> outcome.Returned?)
      && (r.Ok? ==> r.value == outcome.value)
      && (r.Err? && r.error.FaultError? ==>
            outcome == Fault(r.error.code, r.error.message) && r.error.kind == Classify(r.error.code))
      && (r.Err? && r.error.Reraised? ==> outcome == RuntimeFailure(r.error.message))
  {
    Classified(transport(b.chimpApi, name, RemoteArguments(b.ApiKey(), args)), args, render)
  }

  /** The remote end is asked exactly one thing: the method name with the stored API
      key before the caller's arguments, at the client's RPC URL. Two transports that
      answer that one request alike make `call` behave alike. */
  lemma CallAsksOnce(b: Client.Base, name: string, args: seq<Value>,
                     t1: (string, string, seq<Value>) -> Outcome, t2: (string, string, seq<Value>) -> Outcome,
                     render: Value -> string)
    requires b.Valid()
    requires t1(b.chimpApi, name, [b.config["api_key"]] + args) == t2(b.chimpApi, name, [b.config["api_key"]] + args)
    ensures Call(b, name, args, t1, render) == Call(b, name, args, t2, render)
  {
  }

  /** A remote fault raises the error class of its code and never a CommunicationError. */
  lemma FaultsAreClassifiedByCode(b: Client.Base, name: string, args: seq<Value>,
                                  transport: (string, string, seq<Value>) -> Outcome, render: Value -> string)
    requires b.Valid() && transport(b.chimpApi, name, RemoteArguments(b.ApiKey(), args)).Fault?
    ensures var f := transport(b.chimpApi, name, RemoteArguments(b.ApiKey(), args));
      Call(b, name, args, transport, render) == Err(FaultError(Classify(f.code), f.code, f.message))
  {
  }
}
