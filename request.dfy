/** `MTik::Request` (lib/mtik/request.rb): the words of one API sentence to
    send (command first, `.tag=N` last), the reply collected for it, its
    completion flag and its callbacks.

    Callbacks are arbitrary Ruby code in the source. Here a callback is an
    identity, and calling it yields a term naming the call (which callback,
    for which request, with which sentence). */
module Requests {

  import opened Bytes
  import opened Wrappers
  import opened Errors
  import opened Codec
  import opened Sentences

  /** The identity of a Proc or block. */
  type CallbackId = nat

  /** An argument as a caller hands it over: a string word, a Hash of
      key/value strings, a Proc, or a (possibly nested) Array. Other Ruby
      values (nil, Symbols, numbers) are not modelled. */
  datatype Arg =
    | Word(word: Bytes)
    | Pairs(entries: seq<(Bytes, Bytes)>)
    | Proc(callback: CallbackId)
    | Nested(items: seq<Arg>)

  /** `Array#flatten`: nested arrays are spliced in place. */
  function Flatten(args: seq<Arg>): (flat: seq<Arg>)
    ensures forall i | 0 <= i < |flat| :: !flat[i].Nested?
  {
    if args == [] then []
    else
      (match args[0]
       case Nested(items) => Flatten(items)
       case _ => [args[0]])
      + Flatten(args[1..])
  }

  /** A callback called with a sentence, on behalf of the request tagged
      `tag`. */
  datatype Call = Call(callback: CallbackId, tag: Bytes, sentence: Sentence)

  /** What `callback` returns: nil, the one result, or the array of results. */
  datatype CallbackResult = NoCallbacks | Single(call: Call) | Several(calls: seq<Call>)

  function CallsOf(r: CallbackResult): seq<Call>
  {
    match r
    case NoCallbacks => []
    case Single(c) => [c]
    case Several(cs) => cs
  }

  // ---------------------------------------------------------------------
  // Argument words

  /** Some line of `s` starts with `prefix`: what a pattern `/^prefix/`
      finds, since Ruby's `^` also matches after every newline. */
  predicate LinePrefixed(s: Bytes, prefix: Bytes)
  {
    exists i | 0 <= i <= |s| && AtLineStart(s, i) :: StartsWith(s[i..], prefix)
  }

  /** Without newlines, `/^prefix/` only looks at the start. */
  lemma LinePrefixedSingleLine(s: Bytes, prefix: Bytes)
    requires NoByte(s, Newline)
    ensures LinePrefixed(s, prefix) <==> StartsWith(s, prefix)
  {
    forall i | 0 < i <= |s|
      ensures !AtLineStart(s, i)
    {
      assert s[i - 1] != Newline;
    }
    if StartsWith(s, prefix) {
      assert AtLineStart(s, 0) && s[0..] == s;
    }
  }

  const QuestionMark: byte := 0x3f
  const TagArgPrefix: Bytes := FromAscii(".tag=")

  /** `/^[\?\=\.]/.match(key)` (request.rb:116). */
  predicate MarkedKey(key: Bytes)
  {
    LinePrefixed(key, [QuestionMark]) || LinePrefixed(key, [EqualsSign]) || LinePrefixed(key, [Dot])
  }

  /** The word a Hash entry becomes (request.rb:115-118). */
  function PairWord(key: Bytes, value: Bytes): Bytes
  {
    (if MarkedKey(key) then key else [EqualsSign] + key) + [EqualsSign] + value
  }

  /** `/^\.tag=/.match(arg)` (request.rb:127): such words are dropped, since
      the request supplies its own tag. */
  predicate TagArg(arg: Bytes)
  {
    LinePrefixed(arg, TagArgPrefix)
  }

  /** The word that tags a request (request.rb:89). */
  function TagWord(tag: Bytes): Bytes
  {
    TagArgPrefix + tag
  }

  /** `addarg` on a word list. */
  function AddArgTo(words: seq<Bytes>, arg: Bytes): seq<Bytes>
  {
    if TagArg(arg) then words else words + [arg]
  }

  function AddPairsTo(words: seq<Bytes>, es: seq<(Bytes, Bytes)>): seq<Bytes>
    decreases |es|
  {
    if es == [] then words else AddPairsTo(AddArgTo(words, PairWord(es[0].0, es[0].1)), es[1..])
  }

  /** The words `addargs` has appended when it returns or raises, and what
      it raised. */
  datatype ArgsEffect = ArgsEffect(words: seq<Bytes>, failure: Option<Error>)

  /** `addargs` (request.rb:107-123). An argument that is neither a String
      nor a Hash makes the `.tag=` pattern test raise TypeError. */
  function AddArgsTo(words: seq<Bytes>, args: seq<Arg>): ArgsEffect
    decreases |args|
  {
    if args == [] then ArgsEffect(words, None)
    else
      match args[0]
      case Word(w) => AddArgsTo(AddArgTo(words, w), args[1..])
      case Pairs(es) => AddArgsTo(AddPairsTo(words, es), args[1..])
      case _ => ArgsEffect(words, Some(NotAString))
  }

  /** `addarg` drops a tag argument and otherwise appends exactly that word. */
  lemma AddArgSpec(words: seq<Bytes>, arg: Bytes)
    ensures |AddArgTo(words, arg)| == |words| + (if TagArg(arg) then 0 else 1)
    ensures AddArgTo(words, arg)[..|words|] == words
    ensures !TagArg(arg) ==> AddArgTo(words, arg)[|words|] == arg
  {
  }

  /** The `=` prefix rule: a key already starting with `?`, `=` or `.` is
      used as it is, any other key gets `=` in front. For a key without
      newlines this looks at the key's first byte only. */
  lemma PairWordPrefix(key: Bytes, value: Bytes)
    requires NoByte(key, Newline)
    ensures key != [] && key[0] in {QuestionMark, EqualsSign, Dot} ==>
      PairWord(key, value) == key + [EqualsSign] + value
    ensures (key == [] || key[0] !in {QuestionMark, EqualsSign, Dot}) ==>
      PairWord(key, value) == [EqualsSign] + key + [EqualsSign] + value
  {
    LinePrefixedSingleLine(key, [QuestionMark]);
    LinePrefixedSingleLine(key, [EqualsSign]);
    LinePrefixedSingleLine(key, [Dot]);
  }

  /** A Hash entry sent as an attribute reads back, on the device's side of
      the same word pattern, as the same key and value. */
  lemma PairWordReadsBack(key: Bytes, value: Bytes)
    requires key != [] && NoByte(key, EqualsSign) && NoByte(key, Newline) && NoByte(value, Newline)
    requires key[0] != QuestionMark && key[0] != Dot
    ensures SplitWord(PairWord(key, value)) == Some((key, value))
  {
    PairWordPrefix(key, value);
    SplitWordAttribute(key, value);
  }

  /** `addargs` only ever appends: the words present stay in front. */
  lemma {:induction false} AddPairsAppends(words: seq<Bytes>, es: seq<(Bytes, Bytes)>)
    ensures AddPairsTo(words, es) == words + AddPairsTo([], es)
    ensures forall i | 0 <= i < |AddPairsTo([], es)| :: !TagArg(AddPairsTo([], es)[i])
    decreases |es|
  {
    if es != [] {
      var w := PairWord(es[0].0, es[0].1);
      AddPairsAppends(AddArgTo(words, w), es[1..]);
      AddPairsAppends(AddArgTo([], w), es[1..]);
    }
  }

  /** `addargs` only appends after the words present, its failure does not
      depend on them, and none of the words it appends is a tag argument;
      `AddArgsWords` says which words those are. */
  lemma AddArgsAppends(words: seq<Bytes>, args: seq<Arg>)
    ensures AddArgsTo(words, args).words == words + AddArgsTo([], args).words
    ensures AddArgsTo(words, args).failure == AddArgsTo([], args).failure
    ensures AddArgsTo(words, args).failure in {None, Some(NotAString)}
    ensures forall i | 0 <= i < |AddArgsTo([], args).words| :: !TagArg(AddArgsTo([], args).words[i])
    ensures AddArgsTo(words, args).failure.None? <==>
      forall i | 0 <= i < |args| :: args[i].Word? || args[i].Pairs?
  {
    AddArgsWords(words, args);
    AddArgsWords([], args);
    assert [] + Untagged(Offered(args)) == Untagged(Offered(args));
    AddArgsFailure(words, args);
  }

  /** The failure of `addargs` is decided by the arguments alone. */
  lemma {:induction false} AddArgsFailure(words: seq<Bytes>, args: seq<Arg>)
    ensures AddArgsTo(words, args).failure == AddArgsTo([], args).failure
    ensures AddArgsTo(words, args).failure in {None, Some(NotAString)}
    ensures AddArgsTo(words, args).failure.None? <==>
      forall i | 0 <= i < |args| :: args[i].Word? || args[i].Pairs?
    decreases |args|
  {
    if args != [] {
      match args[0]
      case Word(w) =>
        AddArgsFailure(AddArgTo(words, w), args[1..]);
        AddArgsFailure(AddArgTo([], w), args[1..]);
        ForallTail(args);
      case Pairs(es) =>
        AddArgsFailure(AddPairsTo(words, es), args[1..]);
        AddArgsFailure(AddPairsTo([], es), args[1..]);
        ForallTail(args);
      case _ =>
    }
  }

  lemma ForallTail(args: seq<Arg>)
    requires args != [] && (args[0].Word? || args[0].Pairs?)
    ensures (forall i | 0 <= i < |args| :: args[i].Word? || args[i].Pairs?) <==>
            (forall i | 0 <= i < |args[1..]| :: args[1..][i].Word? || args[1..][i].Pairs?)
  {
    if forall i | 0 <= i < |args[1..]| :: args[1..][i].Word? || args[1..][i].Pairs? {
      forall i | 0 <= i < |args| ensures args[i].Word? || args[i].Pairs? {
        if i > 0 {
          assert args[i] == args[1..][i - 1];
        }
      }
    }
  }

  /** The words a Hash argument offers `addarg`: one per entry, in order. */
  function PairWords(es: seq<(Bytes, Bytes)>): (ws: seq<Bytes>)
    ensures |ws| == |es|
    ensures forall i | 0 <= i < |es| :: ws[i] == PairWord(es[i].0, es[i].1)
  {
    seq(|es|, i requires 0 <= i < |es| => PairWord(es[i].0, es[i].1))
  }

  /** The words the arguments offer `addarg`, in order, up to the first
      argument that is neither a String nor a Hash. */
  function Offered(args: seq<Arg>): seq<Bytes>
    decreases |args|
  {
    if args == [] then []
    else
      match args[0]
      case Word(w) => [w] + Offered(args[1..])
      case Pairs(es) => PairWords(es) + Offered(args[1..])
      case _ => []
  }

  /** The words of `ws` that are not tag arguments, in order. */
  function Untagged(ws: seq<Bytes>): (r: seq<Bytes>)
    ensures forall w :: w in r <==> w in ws && !TagArg(w)
    decreases |ws|
  {
    if ws == [] then []
    else (if TagArg(ws[0]) then [] else [ws[0]]) + Untagged(ws[1..])
  }

  lemma {:induction false} UntaggedAppend(a: seq<Bytes>, b: seq<Bytes>)
    ensures Untagged(a + b) == Untagged(a) + Untagged(b)
    decreases |a|
  {
    if a == [] {
      assert a + b == b;
    } else {
      assert (a + b)[0] == a[0] && (a + b)[1..] == a[1..] + b;
      UntaggedAppend(a[1..], b);
    }
  }

  /** A Hash argument appends the words of its entries that are not tag
      arguments, in entry order. */
  lemma {:induction false} AddPairsWords(words: seq<Bytes>, es: seq<(Bytes, Bytes)>)
    ensures AddPairsTo(words, es) == words + Untagged(PairWords(es))
    decreases |es|
  {
    if es != [] {
      var p := PairWord(es[0].0, es[0].1);
      assert PairWords(es) == [p] + PairWords(es[1..]);
      UntaggedAppend([p], PairWords(es[1..]));
      AddPairsWords(AddArgTo(words, p), es[1..]);
    }
  }

  /** What `addargs` appends: the words the arguments offer, in order, up to
      the first argument it cannot take, less those that are tag
      arguments. */
  lemma {:induction false} AddArgsWords(words: seq<Bytes>, args: seq<Arg>)
    ensures AddArgsTo(words, args).words == words + Untagged(Offered(args))
    decreases |args|
  {
    if args != [] {
      match args[0]
      case Word(w) =>
        UntaggedAppend([w], Offered(args[1..]));
        AddArgsWords(AddArgTo(words, w), args[1..]);
      case Pairs(es) =>
        UntaggedAppend(PairWords(es), Offered(args[1..]));
        AddPairsWords(words, es);
        AddArgsWords(AddPairsTo(words, es), args[1..]);
      case _ =>
    }
  }

  /** Splitting the callback off the flattened arguments (request.rb:72-77):
      a block wins; otherwise a Proc in last position is popped. */
  function SplitCallback(flat: seq<Arg>, block: Option<CallbackId>): (seq<CallbackId>, seq<Arg>)
  {
    if block.Some? then ([block.value], flat)
    else if flat != [] && flat[|flat| - 1].Proc? then ([flat[|flat| - 1].callback], flat[..|flat| - 1])
    else ([], flat)
  }

  /** Tags are the counter's values in decimal: requests made from different
      counter values never share a tag or a tag word. */
  lemma TagsDistinct(a: nat, b: nat)
    ensures TagWord(DecimalString(a)) == TagWord(DecimalString(b)) <==> a == b
  {
    DecimalStringInjective(a, b);
    if TagWord(DecimalString(a)) == TagWord(DecimalString(b)) {
      assert DecimalString(a) == TagWord(DecimalString(a))[|TagArgPrefix|..];
      assert DecimalString(b) == TagWord(DecimalString(b))[|TagArgPrefix|..];
    }
  }

  // ---------------------------------------------------------------------
  // The objects

  /** The class variable `@@tagspace`, shared by all requests. */
  class TagSpace {
    var next: nat

    constructor ()
      ensures next == 0
    {
      next := 0;
    }
  }

  class Request {
    var words: seq<Bytes>
    const command: Bytes
    const tag: Bytes
    const awaitCompletion: bool
    var complete: bool
    var reply: seq<Sentence>
    var callbacks: seq<CallbackId>

    /** The first half of `initialize` (request.rb:66-81): no reply yet, not
        complete, and the command as the only word. The tag is the one the
        request will take from the counter once its arguments are in. */
    constructor Init(awaitCompletion: bool, command: Bytes, tag: Bytes, callbacks: seq<CallbackId>)
      ensures this.awaitCompletion == awaitCompletion && this.command == command
      ensures this.tag == tag && this.callbacks == callbacks
      ensures words == [command] && !complete && reply == []
    {
      this.awaitCompletion := awaitCompletion;
      this.command := command;
      this.callbacks := callbacks;
      words := [command];
      this.tag := tag;
      complete := false;
      reply := [];
    }

    /** `done?` */
    predicate Done()
      reads this
    {
      complete
    }

    /** `done!`: marks the request complete and changes nothing else, so a
        second call leaves it as the first did. */
    method DoneBang()
      modifies this
      ensures complete
      ensures words == old(words) && reply == old(reply) && callbacks == old(callbacks)
    {
      complete := true;
    }

    /** `reply.push(sentence)`: the connection appends to the reply this
        request holds (connection.rb:316, 349). */
    method PushReply(s: Sentence)
      modifies this
      ensures reply == old(reply) + [s]
      ensures words == old(words) && complete == old(complete) && callbacks == old(callbacks)
    {
      reply := reply + [s];
    }

    /** `addarg` (request.rb:126-130). */
    method AddArg(arg: Bytes)
      modifies this
      ensures words == AddArgTo(old(words), arg)
      ensures complete == old(complete) && reply == old(reply) && callbacks == old(callbacks)
    {
      if !TagArg(arg) {
        words := words + [arg];
      }
    }

    /** `addargs` (request.rb:107-123): the words already pushed stay pushed
        when an argument raises. */
    method AddArgs(args: seq<Arg>) returns (r: Option<Error>)
      modifies this
      ensures words == AddArgsTo(old(words), args).words
      ensures r == AddArgsTo(old(words), args).failure
      ensures complete == old(complete) && reply == old(reply) && callbacks == old(callbacks)
    {
      var i := 0;
      while i < |args|
        invariant 0 <= i <= |args|
        invariant AddArgsTo(words, args[i..]) == AddArgsTo(old(words), args)
        invariant complete == old(complete) && reply == old(reply) && callbacks == old(callbacks)
      {
        match args[i] {
        case Word(w) =>
          AddArg(w);
          assert args[i..][1..] == args[i + 1..];
        case Pairs(es) =>
          var j := 0;
          while j < |es|
            invariant 0 <= j <= |es|
            invariant AddArgsTo(AddPairsTo(words, es[j..]), args[i + 1..]) == AddArgsTo(old(words), args)
            invariant complete == old(complete) && reply == old(reply) && callbacks == old(callbacks)
          {
            var (key, value) := es[j];
            AddArg(PairWord(key, value));
            assert es[j..][1..] == es[j + 1..];
            j := j + 1;
          }
          assert args[i..][1..] == args[i + 1..];
        case _ =>
          return Some(NotAString);
        }
        i := i + 1;
      }
      return None;
    }

    /** `append_callback` (request.rb:96-104): the Procs in order, then the
        block. */
    method AppendCallback(cbs: seq<CallbackId>, block: Option<CallbackId>)
      modifies this
      ensures callbacks == old(callbacks) + cbs + (if block.Some? then [block.value] else [])
      ensures words == old(words) && complete == old(complete) && reply == old(reply)
    {
      var i := 0;
      while i < |cbs|
        invariant 0 <= i <= |cbs|
        invariant callbacks == old(callbacks) + cbs[..i]
        invariant words == old(words) && complete == old(complete) && reply == old(reply)
      {
        callbacks := callbacks + [cbs[i]];
        i := i + 1;
      }
      assert cbs[..i] == cbs;
      if block.Some? {
        callbacks := callbacks + [block.value];
      }
    }

    /** `callback` (request.rb:142-155): nil without callbacks, the single
        result with one, otherwise the array of all results; every callback
        is called once, in registration order. */
    function Callback(s: Sentence): (r: CallbackResult)
      reads this
      ensures r.NoCallbacks? <==> |callbacks| == 0
      ensures r.Single? <==> |callbacks| == 1
      ensures |CallsOf(r)| == |callbacks|
      ensures forall i | 0 <= i < |callbacks| :: CallsOf(r)[i] == Call(callbacks[i], tag, s)
    {
      if |callbacks| == 0 then NoCallbacks
      else if |callbacks| == 1 then Single(Call(callbacks[0], tag, s))
      else Several(seq(|callbacks|, i requires 0 <= i < |callbacks| reads this => Call(callbacks[i], tag, s)))
    }

    /** `request` (request.rb:199-202): the encoded words and the zero-length
        word. */
    function Encoding(): Result<Bytes>
      reads this
    {
      EncodeSentence(words)
    }
  }

  /** `MTik::Request.new` (request.rb:65-90): flatten the arguments, take the
      callback, push the command and the arguments, then take the next tag
      from the shared counter and push `.tag=<tag>`. When an argument
      raises, no request is made and the counter is not advanced. */
  method NewRequest(awaitCompletion: bool, command: Bytes, args: seq<Arg>,
                    block: Option<CallbackId>, tags: TagSpace)
    returns (r: Result<Request>)
    modifies tags
    ensures var (cbs, rest) := SplitCallback(Flatten(args), block);
      && (r.Ok? <==> AddArgsTo([command], rest).failure.None?)
      && (r.Ok? ==>
           && fresh(r.value)
           && r.value.tag == DecimalString(old(tags.next))
           && r.value.words == AddArgsTo([command], rest).words + [TagWord(r.value.tag)]
           && r.value.words == [command] + Untagged(Offered(rest)) + [TagWord(r.value.tag)]
           && r.value.command == command && r.value.awaitCompletion == awaitCompletion
           && r.value.callbacks == cbs && !r.value.complete && r.value.reply == []
           && tags.next == old(tags.next) + 1)
      && (r.Err? ==> r.error == NotAString && tags.next == old(tags.next))
  {
    var (cbs, rest) := SplitCallback(Flatten(args), block);
    var req := new Request.Init(awaitCompletion, command, DecimalString(tags.next), cbs);
    var failure := req.AddArgs(rest);
    if failure.Some? {
      AddArgsAppends([command], rest);
      return Err(failure.value);
    }
    AddArgsWords([command], rest);
    tags.next := tags.next + 1;
    req.words := req.words + [TagWord(req.tag)];
    return Ok(req);
  }
}
