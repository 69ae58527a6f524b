/** The reply-dispatch logic of `MTik::Connection` (lib/mtik/connection.rb)
    as functions of a snapshot of the connection: `get_sentence`,
    `wait_for_reply`, `wait_all` and `wait_for_request`. These functions
    are the specification the methods of `Connections.Connection` are proved
    against, and the lemmas here are what they promise.

    A snapshot keeps the state of every request it has seen, by tag, also
    after the request has left the outstanding table (`order`, the tags of
    `@requests` in Hash insertion order): its object lives on with the
    caller, who reads its reply. */
module Dispatch {

  import opened Bytes
  import opened Wrappers
  import opened Errors
  import opened Sentences
  import opened Reader
  import opened Requests

  /** The fields of one `MTik::Request` object. */
  datatype ReqState = ReqState(
    words: seq<Bytes>,
    command: Bytes,
    tag: Bytes,
    awaitCompletion: bool,
    complete: bool,
    reply: seq<Sentence>,
    callbacks: seq<CallbackId>)

  /** The calls `callback(sentence)` makes, in registration order. */
  function CallsFor(st: ReqState, s: Sentence): (cs: seq<Call>)
    ensures |cs| == |st.callbacks|
    ensures forall i | 0 <= i < |cs| :: cs[i] == Call(st.callbacks[i], st.tag, s)
  {
    seq(|st.callbacks|, i requires 0 <= i < |st.callbacks| => Call(st.callbacks[i], st.tag, s))
  }

  datatype World = World(
    states: map<Bytes, ReqState>,
    order: seq<Bytes>,
    data: Bytes,
    incoming: seq<Bytes>,
    parsing: bool,
    sock: bool,
    sslSock: bool,
    log: seq<Call>)

  predicate Distinct(xs: seq<Bytes>)
  {
    forall i, j | 0 <= i < j < |xs| :: xs[i] != xs[j]
  }

  /** Every request is known under its own tag, and every outstanding
      request is not done. */
  predicate WorldValid(w: World)
  {
    && (forall t | t in w.states :: w.states[t].tag == t)
    && (forall t | t in w.order :: t in w.states && !w.states[t].complete)
    && Distinct(w.order)
  }

  /** `Hash#delete` on the key order: the other keys keep their order. */
  function Without(xs: seq<Bytes>, t: Bytes): (ys: seq<Bytes>)
    ensures forall u :: u in ys <==> u in xs && u != t
    ensures |ys| <= |xs|
  {
    if xs == [] then []
    else if xs[0] == t then Without(xs[1..], t)
    else [xs[0]] + Without(xs[1..], t)
  }

  lemma {:induction false} WithoutDistinct(xs: seq<Bytes>, t: Bytes)
    requires Distinct(xs)
    ensures Distinct(Without(xs, t))
    ensures xs != [] && xs[0] == t ==> Without(xs, t) == xs[1..]
  {
    if xs != [] {
      assert Distinct(xs[1..]) by {
        forall i, j | 0 <= i < j < |xs[1..]| ensures xs[1..][i] != xs[1..][j] {
          assert xs[1..][i] == xs[i + 1] && xs[1..][j] == xs[j + 1];
        }
      }
      WithoutDistinct(xs[1..], t);
      if xs[0] == t {
        WithoutAbsent(xs[1..], t);
      } else {
        var ys := [xs[0]] + Without(xs[1..], t);
        forall i, j | 0 <= i < j < |ys| ensures ys[i] != ys[j] {
          if i == 0 {
            assert ys[j] in Without(xs[1..], t);
            assert ys[j] in xs[1..];
          }
        }
      }
    }
  }

  lemma {:induction false} WithoutAbsent(xs: seq<Bytes>, t: Bytes)
    requires t !in xs
    ensures Without(xs, t) == xs
  {
    if xs != [] {
      WithoutAbsent(xs[1..], t);
    }
  }

  /** Everything still to be read. */
  function Unread(w: World): nat
  {
    |Pending(w.data, w.incoming)|
  }

  /** How a request can change while replies are read: its words, command,
      tag, mode and callbacks stay, its reply only grows at the end, and
      once done it stays done. */
  predicate Evolves(a: ReqState, b: ReqState)
  {
    && b.words == a.words && b.command == a.command && b.tag == a.tag
    && b.awaitCompletion == a.awaitCompletion && b.callbacks == a.callbacks
    && a.reply <= b.reply
    && (a.complete ==> b.complete)
  }

  /** How the connection can change while replies are read: no request is
      added, a request leaves the table only once done, and the callback
      log only grows. */
  predicate Progress(w: World, w': World)
  {
    && w'.states.Keys == w.states.Keys
    && (forall t | t in w.states :: Evolves(w.states[t], w'.states[t]))
    && (forall t | t in w'.order :: t in w.order)
    && (forall t | t in w.order && t in w.states && t !in w'.order :: w'.states[t].complete)
    && w.log <= w'.log
  }

  lemma ProgressTransitive(w1: World, w2: World, w3: World)
    requires Progress(w1, w2) && Progress(w2, w3)
    ensures Progress(w1, w3)
  {
    forall t | t in w1.order && t in w1.states && t !in w3.order
      ensures w3.states[t].complete
    {
      if t !in w2.order {
        assert w2.states[t].complete;
      }
    }
  }

  /** The invariant and `Progress` only look at the table and the log. */
  lemma SameTable(a: World, b: World, c: World)
    requires a.states == b.states && a.order == b.order && a.log == b.log
    ensures WorldValid(a) <==> WorldValid(b)
    ensures Progress(a, c) <==> Progress(b, c)
    ensures Progress(c, a) <==> Progress(c, b)
  {
  }

  /** `@requests[req.tag] = req` (connection.rb:405): a new tag goes last in
      the table, a tag already present keeps its place and now names this
      request. */
  function Register(w: World, st: ReqState): (w': World)
    ensures w'.states == w.states[st.tag := st]
    ensures forall t :: t in w'.order <==> t in w.order || t == st.tag
  {
    w.(states := w.states[st.tag := st], order := if st.tag in w.order then w.order else w.order + [st.tag])
  }

  /** Registering a request that is not done keeps the invariant. */
  lemma RegisterKeepsInvariant(w: World, st: ReqState)
    requires WorldValid(w) && !st.complete
    ensures WorldValid(Register(w, st))
  {
    if st.tag !in w.order {
      var o := w.order + [st.tag];
      forall i, j | 0 <= i < j < |o| ensures o[i] != o[j] {
        if j == |o| - 1 {
          assert o[i] == w.order[i];
        } else {
          assert o[i] == w.order[i] && o[j] == w.order[j];
        }
      }
    }
  }

  // ---------------------------------------------------------------------
  // get_sentence and close

  /** `close` (connection.rb:486-492): both sockets are gone afterwards. */
  function Close(w: World): (w': World)
    ensures !w'.sock && !w'.sslSock
    ensures w' == w.(sock := false, sslSock := false)
  {
    w.(sock := false, sslSock := false)
  }

  /** `get_sentence` (connection.rb:189-258): refuse without a socket, read
      one sentence, and close the connection after a `!fatal` sentence. */
  function GetSentence(w: World): (r: (World, Result<Sentence>))
    ensures r.0.states == w.states && r.0.order == w.order && r.0.parsing == w.parsing && r.0.log == w.log
    ensures !w.sock ==> r == (w, Err(NotConnected))
    ensures Unread(r.0) <= Unread(w)
    ensures r.1.Ok? ==> Unread(r.0) < Unread(w)
    ensures Pending(r.0.data, r.0.incoming) == Pending(w.data, w.incoming)[Unread(w) - Unread(r.0)..]
    ensures r.1.Ok? ==> r.1.value != []
    ensures r.1.Ok? && HasKey(r.1.value, FatalKey) ==> !r.0.sock && !r.0.sslSock
  {
    if !w.sock then (w, Err(NotConnected))
    else
      var rd := ReadSentence(w.data, w.incoming, []);
      ReadSentenceConsumes(w.data, w.incoming, []);
      ReadSentenceNonEmpty(w.data, w.incoming, []);
      var w1 := w.(data := rd.data, incoming := rd.incoming);
      if rd.outcome.Ok? && HasKey(rd.outcome.value, FatalKey) then (Close(w1), rd.outcome)
      else (w1, rd.outcome)
  }

  // ---------------------------------------------------------------------
  // wait_for_reply

  /** How one sentence was handled: the loop goes on, a `/quit` ended it,
      or something was raised. */
  datatype Step = Handled | Quit | Raised(error: Error)

  /** The `!fatal` sweep over the outstanding requests (connection.rb:300-317),
      in table order: each is marked done, called back when it awaits
      completion, and, when it is a `/quit`, given the sentence. The flag
      says whether some request was a `/quit`. */
  function Sweep(states: map<Bytes, ReqState>, open: seq<Bytes>, s: Sentence, log: seq<Call>)
    : (r: (map<Bytes, ReqState>, seq<Call>, bool))
    requires forall t | t in open :: t in states
    ensures r.0.Keys == states.Keys
    decreases |open|
  {
    if open == [] then (states, log, false)
    else
      var st := states[open[0]];
      var done := st.(complete := true);
      var log1 := if st.awaitCompletion then log + CallsFor(done, s) else log;
      var quit := st.command == QuitCommand;
      var fin := if quit then done.(reply := done.reply + [s]) else done;
      var r := Sweep(states[open[0] := fin], open[1..], s, log1);
      (r.0, r.1, quit || r.2)
  }

  /** The message a FatalError carries (connection.rb:320-322). */
  function FatalMessage(s: Sentence): Option<Bytes>
  {
    if HasKey(s, MessageKey) then Get(s, MessageKey) else Some([])
  }

  /** A `!fatal` sentence (connection.rb:292-324). */
  function OnFatal(w: World, s: Sentence): (World, Step)
    requires WorldValid(w)
  {
    if |w.data| > 0 then (w, Raised(FatalLeftoverBytes(|w.data|)))
    else
      var r := Sweep(w.states, w.order, s, w.log);
      var w' := w.(states := r.0, order := [], log := r.1);
      if r.2 then (w', Quit) else (w', Raised(Fatal(FatalMessage(s))))
  }

  /** A tagged sentence (connection.rb:326-363). */
  function OnTagged(w: World, s: Sentence): (World, Step)
    requires WorldValid(w)
  {
    if !HasKey(s, TagKey) then (w, Raised(Untagged))
    else
      var rtag := Get(s, TagKey);
      if rtag.None? || rtag.value !in w.order then (w, Raised(UnknownTag(rtag)))
      else
        var t := rtag.value;
        var st := w.states[t];
        var st1 := st.(reply := st.reply + [s]);
        if HasKey(s, DoneKey) then
          var st2 := st1.(complete := true);
          (w.(states := w.states[t := st2], order := Without(w.order, t), log := w.log + CallsFor(st2, s)), Handled)
        else
          (w.(states := w.states[t := st1], log := if st.awaitCompletion then w.log else w.log + CallsFor(st1, s)), Handled)
  }

  /** One pass of the sentence-reading loop (connection.rb:288-363). */
  function OnSentence(w: World): (r: (World, Step))
    requires WorldValid(w)
    ensures WorldValid(r.0) && Progress(w, r.0)
    ensures !r.1.Raised? ==> Unread(r.0) < Unread(w)
    ensures r.0.parsing == w.parsing
  {
    var (w1, got) := GetSentence(w);
    if got.Err? then (w1, Raised(got.error))
    else if HasKey(got.value, FatalKey) then
      FatalKeepsInvariant(w1, got.value);
      OnFatal(w1, got.value)
    else
      TaggedKeepsInvariant(w1, got.value);
      OnTagged(w1, got.value)
  }

  /** The `begin ... end while @data.length > 0` loop (connection.rb:288-365). */
  function ReplyLoop(w: World): (r: (World, Step))
    requires WorldValid(w)
    ensures WorldValid(r.0) && Progress(w, r.0)
    ensures !r.1.Raised? ==> Unread(r.0) < Unread(w)
    ensures r.1.Handled? ==> r.0.data == []
    ensures r.0.parsing == w.parsing
    decreases Unread(w)
  {
    var (w1, st) := OnSentence(w);
    if st.Handled? && |w1.data| > 0 then
      var r := ReplyLoop(w1);
      ProgressTransitive(w, w1, r.0);
      r
    else (w1, st)
  }

  /** `wait_for_reply` (connection.rb:276-367). `@parsing` is restored only on
      a normal return: after a raise it stays set. */
  function WaitForReply(w: World): (r: (World, Option<Error>))
    requires WorldValid(w)
    ensures WorldValid(r.0) && Progress(w, r.0)
    ensures r.1.None? ==> Unread(r.0) < Unread(w) && r.0.parsing == w.parsing
    ensures r.1.Some? ==> r.0.parsing || r.0 == w
  {
    if |w.data| > 0 && !w.parsing then (w, Some(LeftoverBytes(|w.data|)))
    else if w.order == [] then (w, Some(NoRequestMade))
    else
      var start := w.(parsing := true);
      SameTable(w, start, w);
      var (w1, st) := ReplyLoop(start);
      SameTable(w, start, w1);
      SameTable(w1, w1.(parsing := w.parsing), w);
      if st.Raised? then (w1, Some(st.error)) else (w1.(parsing := w.parsing), None)
  }

  /** `wait_all` (connection.rb:261-265): on a normal return every request
      that was outstanding is done and the table is empty. */
  function WaitAll(w: World): (r: (World, Option<Error>))
    requires WorldValid(w)
    ensures WorldValid(r.0) && Progress(w, r.0)
    ensures r.1.None? ==> r.0.order == []
    ensures r.1.None? ==> forall t | t in w.order :: r.0.states[t].complete
    decreases Unread(w)
  {
    if w.order == [] then (w, None)
    else
      var (w1, e) := WaitForReply(w);
      if e.Some? then (w1, e)
      else
        var r := WaitAll(w1);
        ProgressTransitive(w, w1, r.0);
        r
  }

  /** `req.done?` for the request tagged `t`; a request the table has never
      held keeps the flag it had. */
  predicate RequestDone(w: World, t: Bytes, initially: bool)
  {
    if t in w.states then w.states[t].complete else initially
  }

  /** `wait_for_request` (connection.rb:268-272): on a normal return the
      request is done. */
  function WaitForRequest(w: World, t: Bytes, initially: bool): (r: (World, Option<Error>))
    requires WorldValid(w)
    ensures WorldValid(r.0) && Progress(w, r.0)
    ensures r.1.None? ==> RequestDone(r.0, t, initially)
    decreases Unread(w)
  {
    if RequestDone(w, t, initially) then (w, None)
    else
      var (w1, e) := WaitForReply(w);
      if e.Some? then (w1, e)
      else
        var r := WaitForRequest(w1, t, initially);
        ProgressTransitive(w, w1, r.0);
        r
  }

  // ---------------------------------------------------------------------
  // Lemmas

  lemma DistinctTail(xs: seq<Bytes>)
    requires xs != [] && Distinct(xs)
    ensures Distinct(xs[1..]) && xs[0] !in xs[1..]
    ensures forall t | t in xs :: t == xs[0] || t in xs[1..]
  {
    forall i, j | 0 <= i < j < |xs[1..]| ensures xs[1..][i] != xs[1..][j] {
      assert xs[1..][i] == xs[i + 1] && xs[1..][j] == xs[j + 1];
    }
    forall i | 0 <= i < |xs[1..]| ensures xs[1..][i] != xs[0] {
      assert xs[1..][i] == xs[i + 1];
    }
    assert xs == [xs[0]] + xs[1..];
  }

  /** A sequence without repeats has as many elements as distinct members. */
  lemma {:induction false} DistinctCount(xs: seq<Bytes>)
    requires Distinct(xs)
    ensures |set t | t in xs| == |xs|
    decreases |xs|
  {
    if xs != [] {
      DistinctTail(xs);
      DistinctCount(xs[1..]);
      assert (set t | t in xs) == {xs[0]} + (set t | t in xs[1..]);
    }
  }

  /** The sweep reports a `/quit` exactly when one of the swept requests is
      a `/quit`. */
  lemma {:induction false} SweepQuit(states: map<Bytes, ReqState>, open: seq<Bytes>, s: Sentence, log: seq<Call>)
    requires forall t | t in open :: t in states
    ensures Sweep(states, open, s, log).2 <==> exists t | t in open :: states[t].command == QuitCommand
    decreases |open|
  {
    if open != [] {
      var st := states[open[0]];
      var done := st.(complete := true);
      var log1 := if st.awaitCompletion then log + CallsFor(done, s) else log;
      var fin := if st.command == QuitCommand then done.(reply := done.reply + [s]) else done;
      SweepQuit(states[open[0] := fin], open[1..], s, log1);
      assert open == [open[0]] + open[1..];
    }
  }

  /** Every swept request ends done, only a `/quit` gets the sentence
      appended to its reply, and every other request is left as it was. */
  lemma {:induction false} SweepStates(states: map<Bytes, ReqState>, open: seq<Bytes>, s: Sentence, log: seq<Call>)
    requires forall t | t in open :: t in states
    requires Distinct(open)
    ensures var r := Sweep(states, open, s, log);
      && (forall t | t in open :: r.0[t] == states[t].(complete := true,
            reply := states[t].reply + (if states[t].command == QuitCommand then [s] else [])))
      && (forall t | t in states && t !in open :: r.0[t] == states[t])
    decreases |open|
  {
    if open != [] {
      var st := states[open[0]];
      var done := st.(complete := true);
      var log1 := if st.awaitCompletion then log + CallsFor(done, s) else log;
      var fin := if st.command == QuitCommand then done.(reply := done.reply + [s]) else done;
      DistinctTail(open);
      SweepStates(states[open[0] := fin], open[1..], s, log1);
    }
  }

  /** The sweep calls back, in table order, each swept request that awaits
      completion. */
  lemma {:induction false} SweepLog(states: map<Bytes, ReqState>, open: seq<Bytes>, s: Sentence, log: seq<Call>)
    requires forall t | t in open :: t in states
    ensures Sweep(states, open, s, log).1 == log + AwaitingCalls(states, open, s)
    decreases |open|
  {
    if open != [] {
      var st := states[open[0]];
      var done := st.(complete := true);
      var log1 := if st.awaitCompletion then log + CallsFor(done, s) else log;
      var fin := if st.command == QuitCommand then done.(reply := done.reply + [s]) else done;
      SweepLog(states[open[0] := fin], open[1..], s, log1);
      AwaitingCallsUpdate(states, open[1..], s, open[0], fin);
      assert CallsFor(done, s) == CallsFor(st, s);
    }
  }

  /** The calls the sweep makes: for each outstanding request in table
      order that awaits completion, its callbacks in registration order. */
  function AwaitingCalls(states: map<Bytes, ReqState>, open: seq<Bytes>, s: Sentence): seq<Call>
    requires forall t | t in open :: t in states
    decreases |open|
  {
    if open == [] then []
    else
      (if states[open[0]].awaitCompletion then CallsFor(states[open[0]], s) else [])
      + AwaitingCalls(states, open[1..], s)
  }

  lemma {:induction false} AwaitingCallsUpdate(states: map<Bytes, ReqState>, open: seq<Bytes>, s: Sentence,
                                                t0: Bytes, st: ReqState)
    requires forall t | t in open :: t in states
    requires t0 in states
    requires st.awaitCompletion == states[t0].awaitCompletion
    requires st.callbacks == states[t0].callbacks && st.tag == states[t0].tag
    ensures AwaitingCalls(states[t0 := st], open, s) == AwaitingCalls(states, open, s)
    decreases |open|
  {
    if open != [] {
      AwaitingCallsUpdate(states, open[1..], s, t0, st);
      if open[0] == t0 {
        assert CallsFor(st, s) == CallsFor(states[t0], s);
      }
    }
  }

  /** After the fatal sweep the table is empty, and the sweep keeps both
      parts of the invariant. */
  lemma FatalKeepsInvariant(w: World, s: Sentence)
    requires WorldValid(w)
    ensures WorldValid(OnFatal(w, s).0) && Progress(w, OnFatal(w, s).0)
    ensures OnFatal(w, s).0.data == w.data && OnFatal(w, s).0.incoming == w.incoming
  {
    if |w.data| == 0 {
      SweepStates(w.states, w.order, s, w.log);
      SweepLog(w.states, w.order, s, w.log);
      var r := Sweep(w.states, w.order, s, w.log);
      assert w.log <= r.1;
      forall t | t in w.states ensures Evolves(w.states[t], r.0[t]) {
        if t in w.order {
          assert r.0[t].reply == w.states[t].reply + (if w.states[t].command == QuitCommand then [s] else []);
        }
      }
    }
  }

  /** Handling a tagged sentence keeps the invariant: the request `!done`
      completes leaves the table. */
  lemma TaggedKeepsInvariant(w: World, s: Sentence)
    requires WorldValid(w)
    ensures WorldValid(OnTagged(w, s).0) && Progress(w, OnTagged(w, s).0)
    ensures OnTagged(w, s).0.data == w.data && OnTagged(w, s).0.incoming == w.incoming
  {
    var rtag := Get(s, TagKey);
    if HasKey(s, TagKey) && rtag.Some? && rtag.value in w.order {
      var t := rtag.value;
      var st1 := w.states[t].(reply := w.states[t].reply + [s]);
      if HasKey(s, DoneKey) {
        DoneKeepsInvariant(w, t, st1.(complete := true), CallsFor(st1.(complete := true), s));
      } else {
        UpdateKeepsInvariant(w, t, st1, if w.states[t].awaitCompletion then [] else CallsFor(st1, s));
        if w.states[t].awaitCompletion {
          assert w.log + [] == w.log;
        }
      }
    }
  }

  lemma DoneKeepsInvariant(w: World, t: Bytes, st: ReqState, calls: seq<Call>)
    requires WorldValid(w) && t in w.order && Evolves(w.states[t], st) && st.tag == t && st.complete
    ensures var w' := w.(states := w.states[t := st], order := Without(w.order, t), log := w.log + calls);
      WorldValid(w') && Progress(w, w')
  {
    WithoutDistinct(w.order, t);
  }

  lemma UpdateKeepsInvariant(w: World, t: Bytes, st: ReqState, calls: seq<Call>)
    requires WorldValid(w) && t in w.order && Evolves(w.states[t], st) && st.tag == t && !st.complete
    ensures var w' := w.(states := w.states[t := st], log := w.log + calls);
      WorldValid(w') && Progress(w, w')
  {
  }

  /** Where a fatal sentence leaves the connection (connection.rb:292-324):
      with bytes left over nothing changes and an error is raised;
      otherwise the table is empty, every request that was outstanding is
      done, and `wait_for_reply` returns if and only if one of them was a
      `/quit`, raising FatalError with the sentence's message otherwise. */
  lemma FatalOutcome(w: World, s: Sentence)
    requires WorldValid(w)
    ensures |w.data| > 0 ==> OnFatal(w, s) == (w, Raised(FatalLeftoverBytes(|w.data|)))
    ensures |w.data| == 0 ==>
      && OnFatal(w, s).0.order == []
      && (forall t | t in w.order :: OnFatal(w, s).0.states[t].complete)
      && (OnFatal(w, s).1 == Quit <==> exists t | t in w.order :: w.states[t].command == QuitCommand)
      && (OnFatal(w, s).1 != Quit ==> OnFatal(w, s).1 == Raised(Fatal(FatalMessage(s))))
  {
    if |w.data| == 0 {
      SweepStates(w.states, w.order, s, w.log);
      SweepQuit(w.states, w.order, s, w.log);
    }
  }

  /** A tagged sentence goes to its own request only (connection.rb:349-362):
      it is appended to that request's reply, which so keeps arrival order;
      `!done` completes the request, calls its callbacks once and removes
      it from the table; any other sentence calls them only when the
      request does not await completion. Every other request is left as it
      was. */
  lemma TaggedRouting(w: World, s: Sentence, t: Bytes)
    requires WorldValid(w)
    requires HasKey(s, TagKey) && Get(s, TagKey) == Some(t) && t in w.order
    ensures var (w', st) := OnTagged(w, s);
      && st == Handled
      && w'.states.Keys == w.states.Keys
      && (forall u | u in w.states && u != t :: w'.states[u] == w.states[u])
      && w'.states[t].reply == w.states[t].reply + [s]
      && (w'.states[t].complete <==> HasKey(s, DoneKey))
      && (t in w'.order <==> !HasKey(s, DoneKey))
      && (forall u | u != t :: u in w'.order <==> u in w.order)
      && w'.log == w.log +
           (if HasKey(s, DoneKey) || !w.states[t].awaitCompletion then CallsFor(w.states[t], s) else [])
  {
    TaggedTable(w, s, t);
    TaggedOrderLog(w, s, t);
  }

  lemma TaggedTable(w: World, s: Sentence, t: Bytes)
    requires WorldValid(w)
    requires HasKey(s, TagKey) && Get(s, TagKey) == Some(t) && t in w.order
    ensures var w' := OnTagged(w, s).0;
      && w'.states.Keys == w.states.Keys
      && (forall u | u in w.states && u != t :: w'.states[u] == w.states[u])
      && w'.states[t].reply == w.states[t].reply + [s]
      && (w'.states[t].complete <==> HasKey(s, DoneKey))
  {
  }

  lemma TaggedOrderLog(w: World, s: Sentence, t: Bytes)
    requires WorldValid(w)
    requires HasKey(s, TagKey) && Get(s, TagKey) == Some(t) && t in w.order
    ensures var (w', st) := OnTagged(w, s);
      && st == Handled
      && (t in w'.order <==> !HasKey(s, DoneKey))
      && (forall u | u != t :: u in w'.order <==> u in w.order)
      && w'.log == w.log +
           (if HasKey(s, DoneKey) || !w.states[t].awaitCompletion then CallsFor(w.states[t], s) else [])
  {
    var st := w.states[t];
    var st1 := st.(reply := st.reply + [s]);
    CallsForSame(st, st1, s);
    CallsForSame(st, st1.(complete := true), s);
  }

  /** The calls a sentence makes depend only on the request's tag and
      callbacks. */
  lemma CallsForSame(a: ReqState, b: ReqState, s: Sentence)
    requires a.tag == b.tag && a.callbacks == b.callbacks
    ensures CallsFor(a, s) == CallsFor(b, s)
  {
  }

  /** The errors of a tagged sentence (connection.rb:330-340): untagged, or
      tagged with something that is not an outstanding tag. */
  lemma TaggedErrors(w: World, s: Sentence)
    requires WorldValid(w)
    ensures OnTagged(w, s).1 == Raised(Untagged) <==> !HasKey(s, TagKey)
    ensures OnTagged(w, s).1.Raised? <==>
      !HasKey(s, TagKey) || Get(s, TagKey).None? || Get(s, TagKey).value !in w.order
    ensures OnTagged(w, s).1.Raised? ==> OnTagged(w, s).0 == w
  {
  }

  /** The two checks `wait_for_reply` makes before it reads
      (connection.rb:278-283). */
  lemma WaitForReplyGuards(w: World)
    requires WorldValid(w)
    ensures WaitForReply(w).1 == Some(LeftoverBytes(|w.data|)) <== |w.data| > 0 && !w.parsing
    ensures WaitForReply(w).1 == Some(NoRequestMade) <== !(|w.data| > 0 && !w.parsing) && w.order == []
    ensures (|w.data| > 0 && !w.parsing) || w.order == [] ==> WaitForReply(w).0 == w
  {
  }

  /** `wait_for_reply` returns normally with the buffer drained: it keeps
      reading while bytes are left. */
  lemma WaitForReplyDrains(w: World)
    requires WorldValid(w)
    ensures WaitForReply(w).1.None? ==> WaitForReply(w).0.data == [] || WaitForReply(w).0.order == []
  {
    if !(|w.data| > 0 && !w.parsing) && w.order != [] {
      var r := ReplyLoop(w.(parsing := true));
      if r.1 == Quit {
        QuitEmptiesTable(w.(parsing := true));
      }
    }
  }

  /** A `/quit` ends the loop with the table empty. */
  lemma {:induction false} QuitEmptiesTable(w: World)
    requires WorldValid(w)
    ensures ReplyLoop(w).1 == Quit ==> ReplyLoop(w).0.order == []
    decreases Unread(w)
  {
    var (w1, st) := OnSentence(w);
    if st.Handled? && |w1.data| > 0 {
      QuitEmptiesTable(w1);
    } else if st == Quit {
      var (w0, got) := GetSentence(w);
      assert got.Ok? && HasKey(got.value, FatalKey);
    }
  }
}
