/** `MTik::Connection` (lib/mtik/connection.rb): the outstanding-request
    table, the receive buffer and the reply loop, as a class whose methods
    are proved against the functions of `Dispatch`.

    The socket is replaced by its traces: `incoming` holds the chunks the
    socket reads will deliver, and `output` the bytes `xmit` has written.
    `sock` and `sslSock` say whether the plain and the TLS socket are open.

    The connection keeps the state of every request it has registered,
    by tag, in `states`; `order` lists the tags of `@requests` in Hash
    insertion order. A request that leaves the table keeps its final state
    in `states`, where its caller reads the reply: a request object is
    identified by its tag. */
module Connections {

  import opened Bytes
  import opened Wrappers
  import opened Errors
  import opened Codec
  import opened Sentences
  import opened Reader
  import opened Requests
  import opened Dispatch
  import opened Logins

  /** The fields of a request object. */
  function StateOf(r: Request): ReqState
    reads r
  {
    ReqState(r.words, r.command, r.tag, r.awaitCompletion, r.complete, r.reply, r.callbacks)
  }

  /** The first parameter of `send_request`: the `await_completion` flag of a
      new request, or a request object to send again. */
  datatype Target = Fresh(awaitCompletion: bool) | Reuse(req: ReqState)

  /** The request `MTik::Request.new` makes from these arguments when the
      tag counter stands at `n` (request.rb:65-90). */
  function FreshState(awaitCompletion: bool, command: Bytes, args: seq<Arg>, block: Option<CallbackId>, n: nat)
    : ReqState
  {
    var (cbs, rest) := SplitCallback(Flatten(args), block);
    var tag := DecimalString(n);
    ReqState(AddArgsTo([command], rest).words + [TagWord(tag)], command, tag, awaitCompletion, false, [], cbs)
  }

  /** Whether `MTik::Request.new` raises on these arguments. */
  predicate FreshFails(command: Bytes, args: seq<Arg>, block: Option<CallbackId>)
  {
    AddArgsTo([command], SplitCallback(Flatten(args), block).1).failure.Some?
  }

  /** The words of a request sent again: the command, then the arguments
      (connection.rb:399-400). */
  function ReusedWords(words: seq<Bytes>, command: Bytes, args: seq<Arg>): ArgsEffect
  {
    AddArgsTo(AddArgTo(words, command), args)
  }

  /** The snapshot updated with the new state of a request it may hold. */
  function UpdateKnown(w: World, st: ReqState): World
  {
    if st.tag in w.states then w.(states := w.states[st.tag := st]) else w
  }

  /** What a call of `get_reply` or `login` changes: the connection's
      snapshot, the tag counter, the bytes written and the RouterOS
      version. */
  datatype Session = Session(world: World, next: nat, output: Bytes, osVersion: Option<Bytes>)

  /** `get_reply` and `get_reply_each` (connection.rb:470-483): make a
      request, register and send it, then read replies until it is done; the
      result is its reply. */
  function GetReplyOf(s: Session, awaitCompletion: bool, command: Bytes, args: seq<Arg>,
                      block: Option<CallbackId>): (r: (Session, Result<seq<Sentence>>))
    requires WorldValid(s.world)
    ensures WorldValid(r.0.world) && r.0.osVersion == s.osVersion
    ensures s.output <= r.0.output
    ensures FreshFails(command, args, block) <==> r == (s, Err(NotAString))
    ensures r.1.Ok? ==>
      var t := DecimalString(s.next);
      && r.0.next == s.next + 1
      && t in r.0.world.states && r.0.world.states[t].complete
      && r.1.value == r.0.world.states[t].reply
      && r.0.world.states[t].command == command
  {
    if FreshFails(command, args, block) then (s, Err(NotAString))
    else
      var st := FreshState(awaitCompletion, command, args, block, s.next);
      RegisterKeepsInvariant(s.world, st);
      var w1 := Register(s.world, st);
      match EncodeSentence(st.words)
      case Err(_) => (s.(world := w1, next := s.next + 1), Err(WordTooLong))
      case Ok(bytes) =>
        var (w2, e) := Dispatch.WaitForRequest(w1, st.tag, false);
        var s2 := Session(w2, s.next + 1, s.output + bytes, s.osVersion);
        if e.Some? then (s2, Err(e.value)) else (s2, Ok(w2.states[st.tag].reply))
  }

  /** The settings `login` reads. */
  datatype LoginConfig = LoginConfig(useSsl: bool, plaintext: bool, user: Bytes, pass: Bytes)

  /** The arguments of the first `/login`: the name and the password over
      TLS or when plaintext login is asked for, none otherwise
      (connection.rb:106-115). */
  function FirstLoginArgs(c: LoginConfig): seq<Arg>
  {
    if c.useSsl || c.plaintext then DirectLoginArgs(c.user, c.pass) else []
  }

  /** connection.rb:143-146: ask for the system resources and take the
      version from the answer. */
  function VersionQueryOf(s: Session): (r: (Session, Option<Error>))
    requires WorldValid(s.world)
    ensures WorldValid(r.0.world)
    ensures r.1.Some? ==> r.0.osVersion == s.osVersion
    ensures s.output <= r.0.output
  {
    var got := GetReplyOf(s, true, ResourceCommand, [], None);
    if got.1.Err? then (got.0, Some(got.1.error))
    else
      var v := OsVersionOf(got.1.value, s.osVersion);
      if v.Err? then (got.0, Some(v.error)) else (got.0.(osVersion := v.value), None)
  }

  /** `login` (connection.rb:98-147) once `connect` has run; `md5hex` is
      `Digest::MD5.hexdigest`. The direct login is tried over TLS or when
      plaintext login is asked for; when its reply is not the logged-in
      shape, or on the plain path, the reply must carry the challenge, and
      the answer to the challenge response decides. The version query
      follows a successful login. */
  function LoginOf(s: Session, c: LoginConfig, md5hex: Bytes -> Bytes): (r: (Session, Option<Error>))
    requires WorldValid(s.world)
    ensures WorldValid(r.0.world)
    ensures !s.world.sock ==> r == (s, Some(LoginNotConnected))
    ensures r.1.Some? ==> r.0.osVersion == s.osVersion
    ensures s.output <= r.0.output
  {
    if !s.world.sock then (s, Some(LoginNotConnected))
    else
      var first := GetReplyOf(s, true, LoginCommand, FirstLoginArgs(c), None);
      if first.1.Err? then (first.0, Some(first.1.error))
      else if (c.useSsl || c.plaintext) && LoggedIn(first.1.value) then VersionQueryOf(first.0)
      else ChallengeResponseOf(first.0, c, md5hex, ChallengeOf(first.1.value))
  }

  /** The challenge-response half of `login` (connection.rb:117-139). */
  function ChallengeResponseOf(s: Session, c: LoginConfig, md5hex: Bytes -> Bytes, challenge: Result<Bytes>)
    : (r: (Session, Option<Error>))
    requires WorldValid(s.world)
    ensures WorldValid(r.0.world)
    ensures r.1.Some? ==> r.0.osVersion == s.osVersion
    ensures s.output <= r.0.output
  {
    if challenge.Err? then (s, Some(challenge.error))
    else
      var second := GetReplyOf(s, true, LoginCommand, ResponseArgs(c.user, c.pass, challenge.value, md5hex), None);
      if second.1.Err? then (second.0, Some(second.1.error))
      else
        var verdict := ResponseVerdict(second.1.value);
        if verdict.Refused? then (second.0, Some(verdict.error))
        else if verdict.Dropped? then (second.0.(world := second.0.world.(sock := false)), Some(LoginUnknownResponse))
        else VersionQueryOf(second.0)
  }

  /** A word that starts with a byte other than `.` and holds no newline is
      no tag argument. */
  lemma UntaggedWord(prefix: Bytes, x: Bytes)
    requires prefix != [] && prefix[0] != Dot
    requires NoByte(prefix, Newline) && NoByte(x, Newline)
    ensures !TagArg(prefix + x)
  {
    var w := prefix + x;
    assert NoByte(w, Newline) by {
      forall i | 0 <= i < |w| ensures w[i] != Newline {
        if i >= |prefix| {
          assert w[i] == x[i - |prefix|];
        }
      }
    }
    LinePrefixedSingleLine(w, TagArgPrefix);
    assert w[0] == prefix[0];
  }

  /** The words of the first `/login` request: the password travels only on
      the direct path. The request can always be made. */
  lemma FirstLoginWords(c: LoginConfig, n: nat)
    requires NoByte(c.user, Newline) && NoByte(c.pass, Newline)
    ensures !FreshFails(LoginCommand, FirstLoginArgs(c), None)
    ensures FreshState(true, LoginCommand, FirstLoginArgs(c), None, n).words ==
      if c.useSsl || c.plaintext
      then [LoginCommand, NameArgPrefix + c.user, PasswordArgPrefix + c.pass, TagWord(DecimalString(n))]
      else [LoginCommand, TagWord(DecimalString(n))]
  {
    if c.useSsl || c.plaintext {
      UntaggedWord(NameArgPrefix, c.user);
      UntaggedWord(PasswordArgPrefix, c.pass);
      TwoWords([LoginCommand], NameArgPrefix + c.user, PasswordArgPrefix + c.pass);
    } else {
      assert Flatten(FirstLoginArgs(c)) == [];
    }
  }

  /** The words of the challenge response: the name and the digest, no
      password. The request can always be made. */
  lemma ResponseLoginWords(c: LoginConfig, challenge: Bytes, md5hex: Bytes -> Bytes, n: nat)
    requires NoByte(c.user, Newline) && NoByte(md5hex([0x00] + c.pass + challenge), Newline)
    ensures !FreshFails(LoginCommand, ResponseArgs(c.user, c.pass, challenge, md5hex), None)
    ensures FreshState(true, LoginCommand, ResponseArgs(c.user, c.pass, challenge, md5hex), None, n).words ==
      [LoginCommand, NameArgPrefix + c.user, ResponseArgPrefix + md5hex([0x00] + c.pass + challenge),
       TagWord(DecimalString(n))]
  {
    var digest := md5hex([0x00] + c.pass + challenge);
    UntaggedWord(NameArgPrefix, c.user);
    UntaggedWord(ResponseArgPrefix, digest);
    TwoWords([LoginCommand], NameArgPrefix + c.user, ResponseArgPrefix + digest);
  }

  lemma TwoWords(words: seq<Bytes>, a: Bytes, b: Bytes)
    requires !TagArg(a) && !TagArg(b)
    ensures AddArgsTo(words, [Word(a), Word(b)]) == ArgsEffect(words + [a, b], None)
  {
    var args := [Word(a), Word(b)];
    assert args[1..][1..] == [];
    assert AddArgsTo(words + [a], args[1..]) == AddArgsTo(words + [a] + [b], []);
    assert words + [a] + [b] == words + [a, b];
  }

  /** The word loop of `get_sentence` (connection.rb:200-237): decode words
      from the buffer and add them to the sentence until the empty word, an
      error, or a word that has not fully arrived. */
  method ParseBuffered(data: Bytes, sentence: Sentence) returns (p: Parsed)
    ensures p == ParseWords(data, sentence)
    ensures p.NeedMore? ==> ParseWords(p.rest, p.sentence) == p
  {
    var buf, s := data, sentence;
    while true
      invariant ParseWords(buf, s) == ParseWords(data, sentence)
      decreases |buf|
    {
      var decoded := GetTikword(buf);
      GetTikwordOutcome(buf);
      if decoded.Err? {
        return Failed(decoded.error, buf);
      }
      if decoded.value.Partial? {
        return NeedMore(s, buf);
      }
      var word := decoded.value.word;
      var rest := buf[decoded.value.consumed..];
      if word == [] {
        if s == [] {
          return Failed(EmptySentence, rest);
        }
        return Finished(s, rest);
      }
      assert ParseWords(buf, s) == ParseWords(rest, AddWord(s, word));
      buf, s := rest, AddWord(s, word);
    }
  }

  class Connection {
    var states: map<Bytes, ReqState>
    var order: seq<Bytes>
    var data: Bytes
    var incoming: seq<Bytes>
    var parsing: bool
    var sock: bool
    var sslSock: bool
    var log: seq<Call>
    var output: Bytes
    var osVersion: Option<Bytes>
    const tags: TagSpace
    const useSsl: bool
    const plaintext: bool
    const user: Bytes
    const pass: Bytes

    /** The fields `Dispatch` describes. */
    function View(): World
      reads this
    {
      World(states, order, data, incoming, parsing, sock, sslSock, log)
    }

    /** The fields `get_reply` and `login` change. */
    function Snapshot(): Session
      reads this, tags
    {
      Session(View(), tags.next, output, osVersion)
    }

    function Config(): LoginConfig
    {
      LoginConfig(useSsl, plaintext, user, pass)
    }

    /** Every request is stored under its own tag, and every outstanding
        request is not done. */
    predicate Valid()
      reads this
    {
      WorldValid(View())
    }

    /** `initialize` up to the call of `login` (connection.rb:60-75); the
        outcome of `connect` is given. */
    constructor (tags: TagSpace, useSsl: bool, plaintext: bool, user: Bytes, pass: Bytes,
                 connected: bool, incoming: seq<Bytes>)
      ensures this.tags == tags && this.useSsl == useSsl && this.plaintext == plaintext
      ensures this.user == user && this.pass == pass
      ensures View() == World(map[], [], [], incoming, false, connected, connected && useSsl, [])
      ensures output == [] && osVersion == None
      ensures Valid()
    {
      this.tags := tags;
      this.useSsl := useSsl;
      this.plaintext := plaintext;
      this.user := user;
      this.pass := pass;
      this.incoming := incoming;
      sock := connected;
      sslSock := connected && useSsl;
      states := map[];
      order := [];
      data := [];
      parsing := false;
      log := [];
      output := [];
      osVersion := None;
    }

    /** `outstanding` (connection.rb:81-83): the number of keys of the
        request table, that is of distinct outstanding tags. */
    function Outstanding(): (n: nat)
      requires Valid()
      reads this
      ensures n == |set t | t in order|
    {
      DistinctCount(order);
      |order|
    }

    /** `connected?` (connection.rb:495-497). */
    predicate Connected()
      reads this
    {
      sock
    }

    /** `close` (connection.rb:486-492): afterwards neither socket is open,
        whichever was open before. */
    method Close()
      modifies this
      ensures View() == Dispatch.Close(old(View()))
      ensures !Connected()
      ensures output == old(output) && osVersion == old(osVersion)
    {
      if !sock && !sslSock {
        return;
      }
      sslSock := false;
      sock := false;
    }

    /** `get_sentence` (connection.rb:189-258). The read loop parses only when
        the buffer has changed since the last parse (`oldlen`), and a
        socket read that delivers nothing leaves the buffer as it was. The
        loops work on a local copy of `@data` and of the chunks to come,
        stored back when the method returns. */
    method GetSentence() returns (r: Result<Sentence>)
      modifies this
      ensures (View(), r) == Dispatch.GetSentence(old(View()))
      ensures output == old(output) && osVersion == old(osVersion)
    {
      if !sock {
        return Err(NotConnected);
      }
      var sentence: Sentence := [];
      var oldlen: int := -1;
      var buf, chunks := data, incoming;
      while true
        invariant ReadSentence(buf, chunks, sentence) == ReadSentence(data, incoming, [])
        invariant oldlen == |buf| ==> ParseWords(buf, sentence) == NeedMore(sentence, buf)
        invariant unchanged(this)
        decreases |chunks|
      {
        if |buf| != oldlen {
          var parsed := ParseBuffered(buf, sentence);
          match parsed
          case Failed(e, rest) =>
            data, incoming := rest, chunks;
            return Err(e);
          case Finished(s, rest) =>
            data, incoming := rest, chunks;
            if HasKey(s, FatalKey) {
              Close();
            }
            return Ok(s);
          case NeedMore(s, rest) =>
            buf, sentence := rest, s;
        }
        oldlen := |buf|;
        if chunks == [] {
          data, incoming := buf, chunks;
          return Err(CommandTimeout);
        }
        assert |chunks[0]| == 0 ==> buf + chunks[0] == buf;
        buf := buf + chunks[0];
        chunks := chunks[1..];
      }
    }

    /** The `!fatal` sweep (connection.rb:300-317): every outstanding request,
        in table order, is removed, marked done, called back when it awaits
        completion, and given the sentence when it is a `/quit`. */
    method FatalSweep(s: Sentence) returns (quit: bool)
      requires Valid()
      modifies this
      ensures var r := Sweep(old(states), old(order), s, old(log));
        View() == old(View()).(states := r.0, order := [], log := r.1) && quit == r.2
      ensures output == old(output) && osVersion == old(osVersion)
    {
      var todo, open, sts, calls := order, order, states, log;
      quit := false;
      var i := 0;
      while i < |todo|
        invariant 0 <= i <= |todo| && open == todo[i..] && Distinct(open)
        invariant unchanged(this)
        invariant forall t | t in open :: t in sts && !sts[t].complete
        invariant var r, r0 := Sweep(sts, open, s, calls), Sweep(states, todo, s, log);
          r.0 == r0.0 && r.1 == r0.1 && (quit || r.2) == r0.2
      {
        DistinctTail(open);
        var t := todo[i];
        var st := sts[t];
        // the sanity check at connection.rb:302-304 never fires
        assert !st.complete;
        WithoutDistinct(open, t);
        open := Without(open, t);
        st := st.(complete := true);
        if st.awaitCompletion {
          calls := calls + CallsFor(st, s);
        }
        if st.command == QuitCommand {
          quit := true;
          st := st.(reply := st.reply + [s]);
        }
        sts := sts[t := st];
        assert todo[i..][1..] == todo[i + 1..];
        i := i + 1;
      }
      states, order, log := sts, open, calls;
    }

    /** A tagged sentence (connection.rb:326-363). */
    method Route(s: Sentence) returns (r: Step)
      requires Valid()
      modifies this
      ensures (View(), r) == OnTagged(old(View()), s)
      ensures output == old(output) && osVersion == old(osVersion)
    {
      if !HasKey(s, TagKey) {
        return Raised(Untagged);
      }
      var rtag := Get(s, TagKey);
      if rtag.None? || rtag.value !in order {
        return Raised(UnknownTag(rtag));
      }
      var t := rtag.value;
      var st := states[t];
      // the sanity check at connection.rb:343-346 never fires
      assert !st.complete;
      st := st.(reply := st.reply + [s]);
      if HasKey(s, DoneKey) {
        st := st.(complete := true);
        log := log + CallsFor(st, s);
        order := Without(order, t);
      } else if !(st.awaitCompletion && !st.complete) {
        log := log + CallsFor(st, s);
      }
      states := states[t := st];
      return Handled;
    }

    /** One pass of the sentence-reading loop of `wait_for_reply`
        (connection.rb:288-363): read a sentence, then handle it as `!fatal`
        or as a tagged reply. */
    method HandleSentence() returns (r: Step)
      requires Valid()
      modifies this
      ensures (View(), r) == OnSentence(old(View()))
      ensures output == old(output) && osVersion == old(osVersion)
    {
      var got := GetSentence();
      if got.Err? {
        return Raised(got.error);
      }
      var s := got.value;
      if HasKey(s, FatalKey) {
        if |data| > 0 {
          return Raised(FatalLeftoverBytes(|data|));
        }
        var quit := FatalSweep(s);
        if !quit {
          return Raised(Fatal(FatalMessage(s)));
        }
        return Quit;
      }
      r := Route(s);
    }

    /** The reading loop of `wait_for_reply` (connection.rb:288-365): one
        sentence at a time until a `/quit` is answered, an error is raised
        or no unparsed bytes are left. */
    method ReadReplies() returns (step: Step)
      requires Valid() && parsing
      modifies this
      ensures (View(), step) == ReplyLoop(old(View()))
      ensures Valid()
      ensures output == old(output) && osVersion == old(osVersion)
    {
      while true
        invariant Valid() && parsing
        invariant ReplyLoop(View()) == ReplyLoop(old(View()))
        invariant output == old(output) && osVersion == old(osVersion)
        decreases Unread(View())
      {
        step := HandleSentence();
        if !step.Handled? || |data| == 0 {
          return;
        }
      }
    }

    /** `wait_for_reply` (connection.rb:276-367). */
    method WaitForReply() returns (e: Option<Error>)
      requires Valid()
      modifies this
      ensures (View(), e) == Dispatch.WaitForReply(old(View()))
      ensures Valid()
      ensures output == old(output) && osVersion == old(osVersion)
    {
      if |data| > 0 && !parsing {
        return Some(LeftoverBytes(|data|));
      }
      if |order| < 1 {
        return Some(NoRequestMade);
      }
      var oldparsing := parsing;
      parsing := true;
      var step := ReadReplies();
      if step.Raised? {
        return Some(step.error);
      }
      parsing := oldparsing;
      return None;
    }

    /** `wait_all` (connection.rb:261-265). */
    method WaitAll() returns (e: Option<Error>)
      requires Valid()
      modifies this
      ensures (View(), e) == Dispatch.WaitAll(old(View()))
      ensures Valid()
      ensures output == old(output) && osVersion == old(osVersion)
    {
      while Outstanding() > 0
        invariant Valid() && Dispatch.WaitAll(View()) == Dispatch.WaitAll(old(View()))
        invariant output == old(output) && osVersion == old(osVersion)
        decreases Unread(View())
      {
        e := WaitForReply();
        if e.Some? {
          return;
        }
      }
      return None;
    }

    /** `req.done?` for the request tagged `t`: the state the connection
        holds, or `initially` for a request object it has never held. */
    predicate IsDone(t: Bytes, initially: bool)
      reads this
    {
      if t in states then states[t].complete else initially
    }

    /** `wait_for_request` (connection.rb:268-272) for the request tagged
        `t`. */
    method WaitForRequest(t: Bytes, initially: bool) returns (e: Option<Error>)
      requires Valid()
      modifies this
      ensures (View(), e) == Dispatch.WaitForRequest(old(View()), t, initially)
      ensures Valid()
      ensures output == old(output) && osVersion == old(osVersion)
    {
      while !IsDone(t, initially)
        invariant Valid()
        invariant Dispatch.WaitForRequest(View(), t, initially) == Dispatch.WaitForRequest(old(View()), t, initially)
        invariant output == old(output) && osVersion == old(osVersion)
        decreases Unread(View())
      {
        e := WaitForReply();
        if e.Some? {
          return;
        }
      }
      return None;
    }

    /** `send_request` (connection.rb:393-416) up to registration, with the
        bytes `xmit` writes for the request (connection.rb:419-427). A new
        request is made from the arguments; a request handed in is refused
        when done, and otherwise gets the command and the arguments
        appended. The request is then stored under its tag and its encoding
        written out; the result names the request by its tag. A block given
        with a request object is not used. */
    method SendRequest(target: Target, command: Bytes, args: seq<Arg>, block: Option<CallbackId>)
      returns (r: Result<Bytes>)
      requires Valid()
      requires target.Reuse? && target.req.tag in states ==> states[target.req.tag] == target.req
      modifies this, tags
      ensures Valid()
      ensures osVersion == old(osVersion)
      ensures target.Fresh? ==>
        var st := FreshState(target.awaitCompletion, command, args, block, old(tags.next));
        && (FreshFails(command, args, block) ==>
              r == Err(NotAString) && View() == old(View()) && tags.next == old(tags.next)
              && output == old(output))
        && (!FreshFails(command, args, block) ==>
              && View() == Register(old(View()), st) && tags.next == old(tags.next) + 1
              && (EncodeSentence(st.words).Ok? ==>
                    r == Ok(st.tag) && output == old(output) + EncodeSentence(st.words).value)
              && (EncodeSentence(st.words).Err? ==> r == Err(WordTooLong) && output == old(output)))
      ensures target.Reuse? ==>
        var st0 := target.req;
        var added := ReusedWords(st0.words, command, args);
        var st := st0.(words := added.words);
        && tags.next == old(tags.next)
        && (st0.complete ==> r == Err(RequestAlreadyDone) && View() == old(View()) && output == old(output))
        && (!st0.complete && added.failure.Some? ==>
              r == Err(NotAString) && View() == UpdateKnown(old(View()), st) && output == old(output))
        && (!st0.complete && added.failure.None? ==>
              && View() == Register(old(View()), st)
              && (EncodeSentence(st.words).Ok? ==>
                    r == Ok(st.tag) && output == old(output) + EncodeSentence(st.words).value)
              && (EncodeSentence(st.words).Err? ==> r == Err(WordTooLong) && output == old(output)))
    {
      var st: ReqState;
      if target.Reuse? {
        st := target.req;
        if st.complete {
          return Err(RequestAlreadyDone);
        }
        var added := ReusedWords(st.words, command, args);
        AddArgsAppends(AddArgTo(st.words, command), args);
        st := st.(words := added.words);
        if added.failure.Some? {
          if st.tag in states {
            states := states[st.tag := st];
          }
          return Err(added.failure.value);
        }
      } else {
        var made := NewRequest(target.awaitCompletion, command, args, block, tags);
        if made.Err? {
          return Err(made.error);
        }
        st := StateOf(made.value);
      }
      r := Transmit(st);
    }

    /** The tail of `send_request` and `xmit` (connection.rb:404-426): add
        the request to the outstanding ones and write its encoding to the
        socket. */
    method Transmit(st: ReqState) returns (r: Result<Bytes>)
      requires Valid() && !st.complete
      modifies this
      ensures Valid()
      ensures osVersion == old(osVersion)
      ensures View() == Register(old(View()), st)
      ensures EncodeSentence(st.words).Ok? ==>
        r == Ok(st.tag) && output == old(output) + EncodeSentence(st.words).value
      ensures EncodeSentence(st.words).Err? ==> r == Err(WordTooLong) && output == old(output)
    {
      RegisterKeepsInvariant(View(), st);
      if st.tag !in order {
        order := order + [st.tag];
      }
      states := states[st.tag := st];
      var encoded := EncodeSentence(st.words);
      EncodeSentenceFails(st.words);
      if encoded.Err? {
        return Err(encoded.error);
      }
      output := output + encoded.value;
      return Ok(st.tag);
    }

    /** `get_reply` (with `awaitCompletion` true) and `get_reply_each` (with
        it false), connection.rb:470-483. */
    method GetReply(awaitCompletion: bool, command: Bytes, args: seq<Arg>, block: Option<CallbackId>)
      returns (r: Result<seq<Sentence>>)
      requires Valid()
      modifies this, tags
      ensures Valid()
      ensures (Snapshot(), r) == GetReplyOf(old(Snapshot()), awaitCompletion, command, args, block)
    {
      ghost var s0 := Snapshot();
      ghost var st := FreshState(awaitCompletion, command, args, block, s0.next);
      var sent := SendRequest(Fresh(awaitCompletion), command, args, block);
      if sent.Err? {
        return Err(sent.error);
      }
      var t := sent.value;
      ghost var s1 := Snapshot();
      assert s1 == Session(Register(s0.world, st), s0.next + 1,
                           s0.output + EncodeSentence(st.words).value, s0.osVersion);
      var e := WaitForRequest(t, false);
      assert Snapshot() == s1.(world := View());
      if e.Some? {
        return Err(e.value);
      }
      return Ok(states[t].reply);
    }

    /** The version query at the end of `login` (connection.rb:143-146). */
    method QueryVersion() returns (e: Option<Error>)
      requires Valid()
      modifies this, tags
      ensures Valid()
      ensures (Snapshot(), e) == VersionQueryOf(old(Snapshot()))
    {
      ghost var s0 := Snapshot();
      var got := GetReply(true, ResourceCommand, [], None);
      ghost var g := GetReplyOf(s0, true, ResourceCommand, [], None);
      assert g == (Snapshot(), got);
      if got.Err? {
        return Some(got.error);
      }
      var v := OsVersionOf(got.value, osVersion);
      if v.Err? {
        return Some(v.error);
      }
      osVersion := v.value;
      assert Snapshot() == g.0.(osVersion := v.value);
      return None;
    }

    /** `@sock = nil` when the device answers the response in an unknown
        way (connection.rb:134-138); the TLS socket is left as it is. */
    method DropSocket()
      requires Valid()
      modifies this
      ensures Valid()
      ensures Snapshot() == old(Snapshot()).(world := old(Snapshot()).world.(sock := false))
    {
      sock := false;
    }

    /** The challenge-response half of `login` (connection.rb:117-139). */
    method ChallengeResponse(md5hex: Bytes -> Bytes, challenge: Result<Bytes>) returns (e: Option<Error>)
      requires Valid()
      modifies this, tags
      ensures Valid()
      ensures (Snapshot(), e) == ChallengeResponseOf(old(Snapshot()), Config(), md5hex, challenge)
    {
      if challenge.Err? {
        return Some(challenge.error);
      }
      ghost var s0 := Snapshot();
      var second := GetReply(true, LoginCommand, ResponseArgs(user, pass, challenge.value, md5hex), None);
      ghost var g := GetReplyOf(s0, true, LoginCommand, ResponseArgs(user, pass, challenge.value, md5hex), None);
      assert g == (Snapshot(), second);
      if second.Err? {
        return Some(second.error);
      }
      var verdict := ResponseVerdict(second.value);
      if verdict.Refused? {
        return Some(verdict.error);
      } else if verdict.Dropped? {
        DropSocket();
        return Some(LoginUnknownResponse);
      }
      e := QueryVersion();
    }

    /** `login` (connection.rb:98-147), with `connect` taken as done: the
        constructor says whether the socket is open. */
    method Login(md5hex: Bytes -> Bytes) returns (e: Option<Error>)
      requires Valid()
      modifies this, tags
      ensures Valid()
      ensures (Snapshot(), e) == LoginOf(old(Snapshot()), Config(), md5hex)
    {
      if !sock {
        return Some(LoginNotConnected);
      }
      ghost var s0 := Snapshot();
      var first := GetReply(true, LoginCommand, FirstLoginArgs(Config()), None);
      ghost var g := GetReplyOf(s0, true, LoginCommand, FirstLoginArgs(Config()), None);
      assert g == (Snapshot(), first);
      if first.Err? {
        return Some(first.error);
      }
      if (useSsl || plaintext) && LoggedIn(first.value) {
        e := QueryVersion();
      } else {
        e := ChallengeResponse(md5hex, ChallengeOf(first.value));
      }
    }
  }
}
