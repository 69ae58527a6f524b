/** The rules of the two entry points in `lib/mtik.rb` that sit on top of the
    connection: `MTik.command`, which runs a batch of commands and collects
    their replies, and `MTik.interactive_client`, which reads commands from a
    terminal. The connection calls, the printing and the terminal reads are
    not modelled here; what is modelled is how each entry point shapes its
    input, the callbacks it gives its requests, and the text it prints when
    the session ends. */
module MTik {

  import opened Bytes
  import opened Wrappers
  import opened Errors
  import opened Sentences
  import opened Replies
  import Versions

  /** A command with no explicit reply limit is cancelled after this many
      replies (mtik.rb:59). */
  const MaxReplies: nat := 1000

  const FetchCommand: Bytes := FromAscii("/tool/fetch")
  const StatusKey: Bytes := FromAscii("status")
  const FinishedStatus: Bytes := FromAscii("finished")

  const Space: byte := 0x20
  const Colon: byte := 0x3a
  const Slash: byte := 0x2f
  const Quote: byte := 0x27

  // ---------------------------------------------------------------------
  // MTik.command: the shape of `:command`

  /** The Ruby value passed as `:command`: a String, an Array, or anything
      else (nil, a number). */
  datatype Value = Str(s: Bytes) | Arr(items: seq<Value>) | Other

  /** The normalisation of `:command` (mtik.rb:259-265): a String is one
      command without arguments, an Array not starting with an Array is one
      command with its arguments, and anything else is taken as it is. */
  function NormaliseCommand(v: Value): (r: Value)
    ensures v.Str? || v.Arr? ==> r.Arr? && r.items != [] && r.items[0].Arr?
    ensures v.Str? ==> r.items[0].items == [v]
    ensures v.Arr? && !(v.items != [] && v.items[0].Arr?) ==> r.items == [v]
    ensures (v.Arr? && v.items != [] && v.items[0].Arr?) || (!v.Str? && !v.Arr?) ==> r == v
  {
    if v.Str? then Arr([Arr([v])])
    else if v.Arr? && !(v.items != [] && v.items[0].Arr?) then Arr([v])
    else v
  }

  /** Normalising twice changes nothing more. */
  lemma NormaliseIdempotent(v: Value)
    ensures NormaliseCommand(NormaliseCommand(v)) == NormaliseCommand(v)
  {
  }

  // ---------------------------------------------------------------------
  // MTik.command: when a request is cancelled

  /** The reply-count rule (mtik.rb:278). */
  predicate OverLimit(limit: Option<int>, replycount: nat)
  {
    match limit
    case None => replycount >= MaxReplies
    case Some(l) => l > 0 && replycount >= l
  }

  /** `sentence['status'] == 'finished'` */
  predicate FetchFinished(s: Sentence)
  {
    Get(s, StatusKey) == Some(FinishedStatus)
  }

  /** Whether the callback of `MTik.command` cancels its request
      (mtik.rb:272-282). `sent` is whether the request is in state `:sent`. */
  predicate CommandCancels(command: Bytes, limit: Option<int>, sent: bool, s: Sentence, replycount: nat)
  {
    if command == FetchCommand then FetchFinished(s) && sent
    else sent && OverLimit(limit, replycount)
  }

  /** A command other than `/tool/fetch` is cancelled, while it is `:sent`,
      once its reply count reaches `MaxReplies` when there is no limit, or
      the limit when it is positive; a limit of zero or less never cancels
      it. */
  lemma CancelThreshold(command: Bytes, limit: Option<int>, sent: bool, s: Sentence, replycount: nat)
    requires command != FetchCommand
    ensures !sent ==> !CommandCancels(command, limit, sent, s, replycount)
    ensures sent && limit.None? ==>
      (CommandCancels(command, limit, sent, s, replycount) <==> replycount >= 1000)
    ensures sent && limit.Some? && limit.value > 0 ==>
      (CommandCancels(command, limit, sent, s, replycount) <==> replycount >= limit.value)
    ensures limit.Some? && limit.value <= 0 ==> !CommandCancels(command, limit, sent, s, replycount)
  {
  }

  /** A `/tool/fetch` command is cancelled on a `finished` status while it
      is `:sent`, whatever the limit and the reply count. */
  lemma FetchCancel(limit: Option<int>, sent: bool, s: Sentence, replycount: nat)
    ensures CommandCancels(FetchCommand, limit, sent, s, replycount) <==> sent && FetchFinished(s)
  {
  }

  // ---------------------------------------------------------------------
  // MTik.command: the callbacks

  /** `replies[i] = reply` on a Ruby Array: an index past the end first
      fills the gap with nil. */
  function Stored(replies: seq<Option<Reply>>, i: nat, reply: Reply): (r: seq<Option<Reply>>)
    ensures |r| == if i < |replies| then |replies| else i + 1
    ensures r[i] == Some(reply)
    ensures forall j | 0 <= j < |r| && j != i :: r[j] == if j < |replies| then replies[j] else None
  {
    if i < |replies| then replies[i := Some(reply)]
    else replies + seq(i - |replies|, _ => None) + [Some(reply)]
  }

  /** The `replies` Array `MTik.command` returns, which the callbacks of all
      its requests share. */
  class ReplyTable {
    var replies: seq<Option<Reply>>

    constructor ()
      ensures replies == []
    {
      replies := [];
    }
  }

  /** The callback `MTik.command` gives the request of command number
      `index` (mtik.rb:267-286), with the reply counter it closes over. */
  class CommandWatch {
    const index: nat
    const command: Bytes
    const limit: Option<int>
    const table: ReplyTable
    var replycount: nat

    constructor (index: nat, command: Bytes, limit: Option<int>, table: ReplyTable)
      ensures this.index == index && this.command == command && this.limit == limit
      ensures this.table == table && replycount == 0
    {
      this.index := index;
      this.command := command;
      this.limit := limit;
      this.table := table;
      replycount := 0;
    }

    /** One sentence of the request: `sent` is whether the request is still
        `:sent` and `reply` is its reply. Every sentence counts, the answer
        says whether the callback cancels the request, and the reply is
        stored at `index` exactly when the sentence is `!done`. */
    method OnSentence(s: Sentence, sent: bool, reply: Reply) returns (cancel: bool)
      modifies this, table
      ensures replycount == old(replycount) + 1
      ensures cancel == CommandCancels(command, limit, sent, s, replycount)
      ensures table.replies
           == if HasKey(s, DoneKey) then Stored(old(table.replies), index, reply) else old(table.replies)
    {
      replycount := replycount + 1;
      cancel := false;
      if command == FetchCommand {
        if FetchFinished(s) && sent {
          cancel := true;
        }
      } else if sent && OverLimit(limit, replycount) {
        cancel := true;
      }
      if HasKey(s, DoneKey) {
        table.replies := Stored(table.replies, index, reply);
      }
    }
  }

  // ---------------------------------------------------------------------
  // interactive_client: one input line

  /** What the loop of `interactive_client` does with a line: prompt again,
      leave the loop (`quit` when the command was `/quit`, otherwise the
      command was not valid), or run a command. */
  datatype LineAction =
    | Skip
    | Leave(quit: bool)
    | Run(command: Bytes, args: seq<Bytes>, maxreply: nat)

  /** `sub(/\s*[\r\n]*$/, '')`: the whitespace at the end goes. */
  function TrimEnd(s: Bytes): (t: Bytes)
    ensures t <= s
    ensures t == [] || !IsSpace(t[|t| - 1])
    ensures forall i | |t| <= i < |s| :: IsSpace(s[i])
    decreases |s|
  {
    if s != [] && IsSpace(s[|s| - 1]) then TrimEnd(s[..|s| - 1]) else s
  }

  /** The number of decimal digits `s` starts with. */
  function DigitCount(s: Bytes): (n: nat)
    ensures n <= |s|
    ensures forall i | 0 <= i < n :: IsDigit(s[i])
    ensures n < |s| ==> !IsDigit(s[n])
  {
    if s != [] && IsDigit(s[0]) then 1 + DigitCount(s[1..]) else 0
  }

  /** A leading `N:` (mtik.rb:103-108): the reply limit it gives, 0 without
      one, and the rest of the line. */
  function TakeLimit(cmd: Bytes): (nat, Bytes)
  {
    var n := DigitCount(cmd);
    if 0 < n < |cmd| && cmd[n] == Colon then (DigitsValue(cmd[..n]), cmd[n + 1..]) else (0, cmd)
  }

  /** The fields of `s` between runs of whitespace, continuing a field `cur`
      already begun; a whitespace run at the start gives an empty first
      field, and a final (possibly empty) field is always emitted. */
  function Fields(s: Bytes, cur: Bytes): (ps: seq<Bytes>)
    ensures ps != []
    decreases |s|
  {
    if s == [] then [cur]
    else if IsSpace(s[0]) then [cur] + Fields(Versions.SkipSpace(s[1..]), [])
    else Fields(s[1..], cur + [s[0]])
  }

  /** `split(/\s+/)` (mtik.rb:109). */
  function SplitOnSpace(s: Bytes): seq<Bytes>
  {
    Versions.DropTrailingEmpty(Fields(s, []))
  }

  predicate NameByte(b: byte)
  {
    (0x30 <= b <= 0x39) || (0x41 <= b <= 0x5a) || (0x61 <= b <= 0x7a) || b == 0x2d
  }

  /** `/^(?:\/[a-zA-Z0-9-]+)+$/` on a whole token: one or more `/`, each
      followed by a name character, and nothing but names and slashes. */
  predicate IsCommandPath(c: Bytes)
  {
    && c != [] && c[0] == Slash
    && forall i | 0 <= i < |c| :: NameByte(c[i]) || (c[i] == Slash && i + 1 < |c| && NameByte(c[i + 1]))
  }

  /** The line handling of `interactive_client` (mtik.rb:102-116). A line
      that is empty or blank yields no token at all, so `args.shift` is nil,
      `next if cmd == ''` does not fire and the pattern test fails: the loop
      is left. An empty first token arises only from whitespace right after
      the `N:` prefix, and that line is skipped. The regular-expression
      anchors are taken at the ends of the line, which is where they match
      on a line `STDIN.gets` returns (a newline only at its end). */
  function ParseLine(line: Bytes): LineAction
  {
    var (maxreply, rest) := TakeLimit(TrimEnd(Versions.SkipSpace(line)));
    Decide(SplitOnSpace(rest), maxreply)
  }

  /** The decision on the tokens of a line (mtik.rb:109-116). */
  function Decide(args: seq<Bytes>, maxreply: nat): LineAction
  {
    if args == [] then Leave(false)
    else if args[0] == [] then Skip
    else if args[0] == QuitCommand then Leave(true)
    else if !IsCommandPath(args[0]) then Leave(false)
    else Run(args[0], args[1..], maxreply)
  }

  /** A token: non-empty, without whitespace. */
  predicate Word(w: Bytes)
  {
    w != [] && forall i | 0 <= i < |w| :: !IsSpace(w[i])
  }

  predicate Words(ws: seq<Bytes>)
  {
    forall k | 0 <= k < |ws| :: Word(ws[k])
  }

  /** Words separated by single spaces. */
  function Unwords(ws: seq<Bytes>): Bytes
    requires ws != []
  {
    if |ws| == 1 then ws[0] else ws[0] + [Space] + Unwords(ws[1..])
  }

  predicate AllSpace(s: Bytes)
  {
    forall i | 0 <= i < |s| :: IsSpace(s[i])
  }

  lemma {:induction false} SkipSpacePad(pad: Bytes, x: Bytes)
    requires AllSpace(pad)
    requires x == [] || !IsSpace(x[0])
    ensures Versions.SkipSpace(pad + x) == x
    decreases |pad|
  {
    if pad != [] {
      assert (pad + x)[1..] == pad[1..] + x;
      SkipSpacePad(pad[1..], x);
    }
  }

  lemma {:induction false} TrimEndPad(x: Bytes, end: Bytes)
    requires AllSpace(end)
    requires x == [] || !IsSpace(x[|x| - 1])
    ensures TrimEnd(x + end) == x
    decreases |end|
  {
    if end != [] {
      assert (x + end)[..|x + end| - 1] == x + end[..|end| - 1];
      TrimEndPad(x, end[..|end| - 1]);
    }
  }

  lemma {:induction false} DigitCountPrefix(d: Bytes, t: Bytes)
    requires forall i | 0 <= i < |d| :: IsDigit(d[i])
    requires t == [] || !IsDigit(t[0])
    ensures DigitCount(d + t) == |d|
    decreases |d|
  {
    if d != [] {
      assert (d + t)[1..] == d[1..] + t;
      DigitCountPrefix(d[1..], t);
    }
  }

  /** A field without whitespace is read byte by byte into the current one. */
  lemma {:induction false} FieldsWord(w: Bytes, t: Bytes, cur: Bytes)
    requires forall i | 0 <= i < |w| :: !IsSpace(w[i])
    ensures Fields(w + t, cur) == Fields(t, cur + w)
    decreases |w|
  {
    if w != [] {
      assert (w + t)[0] == w[0];
      assert (w + t)[1..] == w[1..] + t;
      FieldsWord(w[1..], t, cur + [w[0]]);
      assert cur + [w[0]] + w[1..] == cur + w;
    } else {
      assert w + t == t && cur + w == cur;
    }
  }

  /** A word and the single space after it close a field. */
  lemma FieldsAfterWord(w: Bytes, tail: Bytes, cur: Bytes)
    requires forall i | 0 <= i < |w| :: !IsSpace(w[i])
    requires tail == [] || !IsSpace(tail[0])
    ensures Fields(w + [Space] + tail, cur) == [cur + w] + Fields(tail, [])
  {
    assert w + [Space] + tail == w + ([Space] + tail);
    FieldsWord(w, [Space] + tail, cur);
    assert ([Space] + tail)[1..] == tail;
    assert Versions.SkipSpace(tail) == tail;
  }

  lemma WordsTail(ws: seq<Bytes>)
    requires ws != [] && Words(ws)
    ensures Words(ws[1..])
  {
    forall k | 0 <= k < |ws[1..]| ensures Word(ws[1..][k]) {
      assert ws[1..][k] == ws[k + 1];
    }
  }

  lemma {:induction false} FieldsUnwords(ws: seq<Bytes>, cur: Bytes)
    requires ws != [] && Words(ws)
    ensures Fields(Unwords(ws), cur) == [cur + ws[0]] + ws[1..]
    decreases |ws|
  {
    assert Word(ws[0]);
    if |ws| == 1 {
      FieldsWord(ws[0], [], cur);
      assert ws[0] + [] == ws[0];
    } else {
      WordsTail(ws);
      UnwordsEnds(ws[1..]);
      var tail := Unwords(ws[1..]);
      FieldsAfterWord(ws[0], tail, cur);
      FieldsUnwords(ws[1..], []);
      assert [] + ws[1] == ws[1];
      assert [ws[1]] + ws[2..] == ws[1..];
    }
  }

  lemma {:induction false} UnwordsEnds(ws: seq<Bytes>)
    requires ws != [] && Words(ws)
    ensures Unwords(ws) != [] && Unwords(ws)[0] == ws[0][0]
    ensures !IsSpace(Unwords(ws)[|Unwords(ws)| - 1])
    decreases |ws|
  {
    assert Word(ws[0]);
    if |ws| > 1 {
      WordsTail(ws);
      UnwordsEnds(ws[1..]);
    }
  }

  /** An optional `N:` reply limit as typed. */
  function LimitText(limit: Option<nat>): Bytes
  {
    match limit case None => [] case Some(n) => DecimalString(n) + [Colon]
  }

  function LimitValue(limit: Option<nat>): nat
  {
    match limit case None => 0 case Some(n) => n
  }

  lemma TakeLimitText(limit: Option<nat>, u: Bytes)
    requires u != [] && !IsDigit(u[0])
    ensures TakeLimit(LimitText(limit) + u) == (LimitValue(limit), u)
  {
    var typed := LimitText(limit) + u;
    if limit.None? {
      assert typed == u;
    } else {
      var d := DecimalString(limit.value);
      assert typed == d + ([Colon] + u);
      DigitCountPrefix(d, [Colon] + u);
      assert typed[..|d|] == d && typed[|d|] == Colon && typed[|d| + 1..] == u;
      DecimalStringValue(limit.value);
    }
  }

  /** Whitespace around a text that neither starts nor ends with whitespace
      is trimmed away. */
  lemma TrimAround(pad: Bytes, x: Bytes, end: Bytes)
    requires AllSpace(pad) && AllSpace(end)
    requires x != [] && !IsSpace(x[0]) && !IsSpace(x[|x| - 1])
    ensures TrimEnd(Versions.SkipSpace(pad + x + end)) == x
  {
    assert pad + x + end == pad + (x + end);
    SkipSpacePad(pad, x + end);
    TrimEndPad(x, end);
  }

  /** A command path is a token, and so are its arguments. */
  lemma CommandWords(c: Bytes, args: seq<Bytes>)
    requires IsCommandPath(c) && Words(args)
    ensures Words([c] + args)
  {
    var ws := [c] + args;
    assert Word(c) by {
      forall i | 0 <= i < |c| ensures !IsSpace(c[i]) {
        assert NameByte(c[i]) || c[i] == Slash;
      }
    }
    forall k | 0 <= k < |ws| ensures Word(ws[k]) {
      if k > 0 {
        assert ws[k] == args[k - 1];
      }
    }
  }

  lemma SplitUnwords(ws: seq<Bytes>)
    requires ws != [] && Words(ws)
    ensures SplitOnSpace(Unwords(ws)) == ws
  {
    FieldsUnwords(ws, []);
    assert [] + ws[0] == ws[0];
    assert [ws[0]] + ws[1..] == ws;
  }

  /** The partner of `ParseLine`: a line holding a command path and its
      arguments, separated by spaces, behind an optional `N:` limit and
      surrounded by any whitespace (the line end included), runs exactly
      that command with that limit, or leaves the loop when it is
      `/quit`. */
  lemma ParseTypedLine(pad: Bytes, limit: Option<nat>, c: Bytes, args: seq<Bytes>, end: Bytes)
    requires AllSpace(pad) && AllSpace(end)
    requires IsCommandPath(c) && Words(args)
    ensures ParseLine(pad + LimitText(limit) + Unwords([c] + args) + end)
         == if c == QuitCommand then Leave(true) else Run(c, args, LimitValue(limit))
  {
    var ws := [c] + args;
    CommandWords(c, args);
    var u := Unwords(ws);
    UnwordsEnds(ws);
    TakeLimitLine(pad, limit, u, end);
    SplitUnwords(ws);
    ParseLineOf(pad + LimitText(limit) + u + end, LimitValue(limit), u);
  }

  lemma Regroup(a: Bytes, b: Bytes, c: Bytes, d: Bytes)
    ensures a + b + c + d == a + (b + c) + d
  {
  }

  /** The limit is read off a line whose text, between the whitespace,
      is `u` behind an optional `N:`. */
  lemma TakeLimitLine(pad: Bytes, limit: Option<nat>, u: Bytes, end: Bytes)
    requires AllSpace(pad) && AllSpace(end)
    requires u != [] && !IsDigit(u[0]) && !IsSpace(u[|u| - 1])
    requires limit.Some? || !IsSpace(u[0])
    ensures TakeLimit(TrimEnd(Versions.SkipSpace(pad + LimitText(limit) + u + end))) == (LimitValue(limit), u)
  {
    LimitTextEnds(limit, u);
    Regroup(pad, LimitText(limit), u, end);
    TrimAround(pad, LimitText(limit) + u, end);
    TakeLimitText(limit, u);
  }

  /** The typed text starts with a digit or with `u`, and ends as `u` does. */
  lemma LimitTextEnds(limit: Option<nat>, u: Bytes)
    requires u != [] && !IsSpace(u[|u| - 1])
    requires limit.Some? || !IsSpace(u[0])
    ensures var typed := LimitText(limit) + u;
      typed != [] && !IsSpace(typed[0]) && !IsSpace(typed[|typed| - 1])
  {
    var typed := LimitText(limit) + u;
    if limit.None? {
      assert typed == u;
    } else {
      assert typed[0] == DecimalString(limit.value)[0];
    }
    assert typed[|typed| - 1] == u[|u| - 1];
  }

  /** A blank line yields no token and leaves the loop. */
  lemma BlankLineLeaves(line: Bytes)
    requires AllSpace(line)
    ensures ParseLine(line) == Leave(false)
  {
    BlankTrimmed(line);
    ParseLineOf(line, 0, []);
  }

  lemma BlankTrimmed(line: Bytes)
    requires AllSpace(line)
    ensures TakeLimit(TrimEnd(Versions.SkipSpace(line))) == (0, [])
  {
    SkipSpacePad(line, []);
    assert line + [] == line;
  }

  /** Whitespace right after the `N:` prefix gives an empty first token, and
      the line is skipped. */
  lemma SpaceAfterLimitSkips(n: nat, ws: seq<Bytes>)
    requires ws != [] && Words(ws)
    ensures ParseLine(LimitText(Some(n)) + [Space] + Unwords(ws)) == Skip
  {
    var u := Unwords(ws);
    UnwordsEnds(ws);
    var line := LimitText(Some(n)) + [Space] + u;
    assert line == [] + LimitText(Some(n)) + ([Space] + u) + [];
    TakeLimitLine([], Some(n), [Space] + u, []);
    SplitLeadingSpace(ws);
    ParseLineOf(line, n, [Space] + u);
  }

  lemma ParseLineOf(line: Bytes, n: nat, rest: Bytes)
    requires TakeLimit(TrimEnd(Versions.SkipSpace(line))) == (n, rest)
    ensures ParseLine(line) == Decide(SplitOnSpace(rest), n)
  {
  }

  lemma SplitLeadingSpace(ws: seq<Bytes>)
    requires ws != [] && Words(ws)
    ensures SplitOnSpace([Space] + Unwords(ws)) == [[]] + ws
  {
    FieldsOfUnwords(ws);
    FieldsLeadingSpace(Unwords(ws), ws);
    assert Word(ws[|ws| - 1]);
    KeepNonEmptyLast([[]] + ws);
  }

  lemma FieldsOfUnwords(ws: seq<Bytes>)
    requires ws != [] && Words(ws)
    ensures Fields(Unwords(ws), []) == ws
    ensures Unwords(ws)[0] == ws[0][0]
  {
    FieldsUnwords(ws, []);
    UnwordsEnds(ws);
    assert [] + ws[0] == ws[0];
    assert [ws[0]] + ws[1..] == ws;
  }

  lemma FieldsLeadingSpace(u: Bytes, ws: seq<Bytes>)
    requires u != [] && !IsSpace(u[0]) && Fields(u, []) == ws
    ensures Fields([Space] + u, []) == [[]] + ws
  {
    assert ([Space] + u)[1..] == u;
  }

  lemma KeepNonEmptyLast(ps: seq<Bytes>)
    requires ps != [] && ps[|ps| - 1] != []
    ensures Versions.DropTrailingEmpty(ps) == ps
  {
  }

  /** Every command `ParseLine` runs is a valid path other than `/quit`, and
      every argument is a token. */
  lemma ParseLineRuns(line: Bytes)
    requires ParseLine(line).Run?
    ensures IsCommandPath(ParseLine(line).command) && ParseLine(line).command != QuitCommand
    ensures Words(ParseLine(line).args)
  {
    var (n, rest) := TakeLimit(TrimEnd(Versions.SkipSpace(line)));
    ParseLineOf(line, n, rest);
    SplitTailWords(rest);
    DecideRuns(SplitOnSpace(rest), n);
  }

  lemma DecideRuns(args: seq<Bytes>, n: nat)
    requires Decide(args, n).Run?
    requires Words(if args == [] then [] else args[1..])
    ensures IsCommandPath(Decide(args, n).command) && Decide(args, n).command != QuitCommand
    ensures Words(Decide(args, n).args)
  {
  }

  /** Every token after the first one `split` returns is a word. */
  lemma SplitTailWords(rest: Bytes)
    ensures var qs := SplitOnSpace(rest); Words(if qs == [] then [] else qs[1..])
  {
    var ps := Fields(rest, []);
    FieldsShape(rest, []);
    var qs := Versions.DropTrailingEmpty(ps);
    if qs != [] {
      forall k | 0 <= k < |qs[1..]| ensures Word(qs[1..][k]) {
        assert qs[1..][k] == ps[k + 1];
        if k + 1 == |qs| - 1 {
          assert qs[|qs| - 1] != [];
        }
      }
    }
  }

  /** The fields contain no whitespace, and all but the first and the last
      are non-empty. */
  lemma FieldsShape(s: Bytes, cur: Bytes)
    requires forall i | 0 <= i < |cur| :: !IsSpace(cur[i])
    ensures forall k, i | 0 <= k < |Fields(s, cur)| && 0 <= i < |Fields(s, cur)[k]| :: !IsSpace(Fields(s, cur)[k][i])
    ensures forall k | 0 < k < |Fields(s, cur)| - 1 :: Fields(s, cur)[k] != []
  {
    FieldsNoSpace(s, cur);
    FieldsInnerNonEmpty(s, cur);
  }

  lemma {:induction false} FieldsNoSpace(s: Bytes, cur: Bytes)
    requires forall i | 0 <= i < |cur| :: !IsSpace(cur[i])
    ensures forall k, i | 0 <= k < |Fields(s, cur)| && 0 <= i < |Fields(s, cur)[k]| :: !IsSpace(Fields(s, cur)[k][i])
    decreases |s|
  {
    if s == [] {
    } else if IsSpace(s[0]) {
      var t := Versions.SkipSpace(s[1..]);
      FieldsNoSpace(t, []);
      assert Fields(s, cur) == [cur] + Fields(t, []);
    } else {
      FieldsNoSpace(s[1..], cur + [s[0]]);
    }
  }

  lemma {:induction false} FieldsInnerNonEmpty(s: Bytes, cur: Bytes)
    ensures forall k | 0 < k < |Fields(s, cur)| - 1 :: Fields(s, cur)[k] != []
    decreases |s|
  {
    if s == [] {
    } else if IsSpace(s[0]) {
      var t := Versions.SkipSpace(s[1..]);
      FieldsInnerNonEmpty(t, []);
      if t != [] {
        FieldsStart(t);
      }
      assert Fields(s, cur) == [cur] + Fields(t, []);
    } else {
      FieldsInnerNonEmpty(s[1..], cur + [s[0]]);
    }
  }

  /** Fields of a text that starts with a non-space byte: the first one is
      non-empty, or it is the only one. */
  lemma {:induction false} FieldsStart(t: Bytes)
    requires t != [] && !IsSpace(t[0])
    ensures Fields(t, [])[0] != [] || |Fields(t, [])| == 1
  {
    assert [] + [t[0]] == [t[0]];
    assert Fields(t, []) == Fields(t[1..], [t[0]]);
    FieldsFirst(t[1..], [t[0]]);
  }

  lemma {:induction false} FieldsFirst(s: Bytes, cur: Bytes)
    requires cur != []
    ensures Fields(s, cur)[0] != []
    decreases |s|
  {
    if s != [] && !IsSpace(s[0]) {
      FieldsFirst(s[1..], cur + [s[0]]);
    }
  }

  // ---------------------------------------------------------------------
  // interactive_client: the callback of a command

  /** The auto-cancel condition of `interactive_client` (mtik.rb:131-133).
      Ruby binds `&&` tighter than `||`, so reaching the reply limit cancels
      whether or not the request is still `:sent`. */
  predicate InteractiveCancels(sent: bool, command: Bytes, s: Sentence, maxreply: nat, count: nat)
  {
    (sent && command == FetchCommand && FetchFinished(s)) || (maxreply > 0 && count == maxreply)
  }

  /** Reaching a positive limit cancels even a request that is not `:sent`;
      without a limit only a finished `/tool/fetch` is cancelled. */
  lemma InteractivePrecedence(sent: bool, command: Bytes, s: Sentence, maxreply: nat, count: nat)
    ensures maxreply > 0 ==> InteractiveCancels(false, command, s, maxreply, maxreply)
    ensures maxreply == 0 ==>
      (InteractiveCancels(sent, command, s, maxreply, count) <==> sent && command == FetchCommand && FetchFinished(s))
    ensures count != maxreply ==>
      (InteractiveCancels(sent, command, s, maxreply, count) <==> sent && command == FetchCommand && FetchFinished(s))
  {
  }

  /** A `!trap` whose `message` key has a nil value: the callback's print
      (mtik.rb:125) then adds nil to a String, which raises TypeError. */
  predicate NilTrapMessage(s: Sentence)
  {
    HasKey(s, TrapKey) && HasKey(s, MessageKey) && Get(s, MessageKey).None?
  }

  /** The `state` variable of `interactive_client`: 0, 1 and 2. */
  datatype Progress = Waiting | Ended | Cancelling

  /** The variables the callback of `interactive_client` closes over
      (mtik.rb:118-148). */
  class InteractiveWatch {
    const command: Bytes
    const maxreply: nat
    var trap: Option<Sentence>
    var count: nat
    var state: Progress

    constructor (command: Bytes, maxreply: nat)
      ensures this.command == command && this.maxreply == maxreply
      ensures trap == None && count == 0 && state == Waiting
    {
      this.command := command;
      this.maxreply := maxreply;
      trap := None;
      count := 0;
      state := Waiting;
    }

    /** One sentence of the request: `sent` is whether the request is still
        `:sent`, `done` whether it is done. A `!trap` is kept, and printing
        it raises when its `message` is nil; a `!re` is counted and may
        cancel the request (the answer), a sentence of no known type raises,
        and a done request ends the wait unless it is being cancelled. */
    method OnSentence(s: Sentence, sent: bool, done: bool) returns (r: Result<bool>)
      modifies this
      ensures r == Err(UnexpectedSentenceType) <==>
        !HasKey(s, TrapKey) && !HasKey(s, ReKey) && !HasKey(s, DoneKey) && !HasKey(s, FatalKey)
      ensures r == Err(NilString) <==> NilTrapMessage(s)
      ensures r.Err? ==> r.error == UnexpectedSentenceType || r.error == NilString
      ensures r == Err(UnexpectedSentenceType) ==> unchanged(this)
      ensures r == Err(NilString) ==> trap == Some(s) && count == old(count) && state == old(state)
      ensures r.Ok? ==> trap == if HasKey(s, TrapKey) then Some(s) else old(trap)
      ensures r.Ok? ==> count == if !HasKey(s, TrapKey) && HasKey(s, ReKey) then old(count) + 1 else old(count)
      ensures r.Ok? ==>
        (r.value <==> !HasKey(s, TrapKey) && HasKey(s, ReKey) && InteractiveCancels(sent, command, s, maxreply, count))
      ensures r.Ok? ==>
        state == if r.value then Cancelling else if old(state) == Waiting && done then Ended else old(state)
    {
      if HasKey(s, TrapKey) {
        trap := Some(s);
        if NilTrapMessage(s) {
          r := Err(NilString);
          return;
        }
        r := Ok(false);
      } else if HasKey(s, ReKey) {
        count := count + 1;
        if InteractiveCancels(sent, command, s, maxreply, count) {
          state := Cancelling;
          r := Ok(true);
        } else {
          r := Ok(false);
        }
      } else if !HasKey(s, DoneKey) && !HasKey(s, FatalKey) {
        r := Err(UnexpectedSentenceType);
        return;
      } else {
        r := Ok(false);
      }
      if state == Waiting && done {
        state := Ended;
      }
    }
  }

  // ---------------------------------------------------------------------
  // interactive_client: the end of the session

  const TerminatedBanner: Bytes := FromAscii("=== SESSION TERMINATED")
  const Arrow: Bytes := FromAscii(" => ")
  const MessageLead: Bytes := FromAscii(": ")
  const NoMessageTail: Bytes := FromAscii(" ===")
  const BlankLines: Bytes := [Newline, Newline]

  function Quoted(x: Bytes): Bytes
  {
    [Quote] + x + [Quote]
  }

  /** What one key of the `!fatal` sentence adds to the message
      (mtik.rb:173-177). */
  function MessagePart(e: Entry): (m: Bytes)
    ensures e.key == FatalKey <==> m == []
  {
    if e.key == FatalKey then []
    else Quoted(e.key) + match e.value case None => [] case Some(v) => Arrow + Quoted(v)
  }

  /** The message built from the sentence's keys in order. */
  function QuitMessage(s: Sentence): Bytes
  {
    if s == [] then [] else QuitMessage(s[..|s| - 1]) + MessagePart(s[|s| - 1])
  }

  /** The message is empty exactly when the sentence has no key but
      `!fatal`. */
  lemma {:induction false} QuitMessageEmpty(s: Sentence)
    ensures QuitMessage(s) == [] <==> forall i | 0 <= i < |s| :: s[i].key == FatalKey
  {
    if s != [] {
      var init := s[..|s| - 1];
      QuitMessageEmpty(init);
      if forall i | 0 <= i < |s| :: s[i].key == FatalKey {
        forall i | 0 <= i < |init| ensures init[i].key == FatalKey {
          assert init[i] == s[i];
        }
      } else {
        var i :| 0 <= i < |s| && s[i].key != FatalKey;
        if i < |init| {
          assert init[i] == s[i];
        }
      }
    }
  }

  /** The `each_key` loop that builds the message (mtik.rb:171-178). */
  method BuildQuitMessage(s: Sentence) returns (message: Bytes)
    ensures message == QuitMessage(s)
  {
    message := [];
    var i := 0;
    while i < |s|
      invariant 0 <= i <= |s|
      invariant message == QuitMessage(s[..i])
    {
      assert s[..i + 1][..i] == s[..i];
      message := message + MessagePart(s[i]);
      i := i + 1;
    }
    assert s[..|s|] == s;
  }

  /** What `interactive_client` prints once `/quit` is answered
      (mtik.rb:163-184). An empty reply leaves `reply[0]` nil, and a first
      sentence that is not `!fatal` raises. */
  function QuitReport(reply: Reply): (r: Result<Bytes>)
    ensures r.Ok? <==> reply != [] && HasKey(reply[0], FatalKey)
    ensures reply == [] ==> r == Err(NoReplySentence)
    ensures reply != [] && !HasKey(reply[0], FatalKey) ==> r == Err(UnexpectedQuitReply)
    ensures r.Ok? && (forall i | 0 <= i < |reply[0]| :: reply[0][i].key == FatalKey) ==>
      r.value == TerminatedBanner + NoMessageTail + BlankLines
    ensures r.Ok? && (exists i | 0 <= i < |reply[0]| :: reply[0][i].key != FatalKey) ==>
      r.value == TerminatedBanner + MessageLead + QuitMessage(reply[0]) + BlankLines
  {
    if reply == [] then Err(NoReplySentence)
    else if !HasKey(reply[0], FatalKey) then Err(UnexpectedQuitReply)
    else
      var message := QuitMessage(reply[0]);
      QuitMessageEmpty(reply[0]);
      Ok(TerminatedBanner + (if |message| > 0 then MessageLead + message else NoMessageTail) + BlankLines)
  }

  /** The usual answer to `/quit`, `!fatal` with a `message`, is accepted
      and reported as `'message' => '<text>'`. */
  lemma QuitWithMessage(v: Bytes)
    ensures QuitReport([[Entry(FatalKey, None), Entry(MessageKey, Some(v))]]).Ok?
    ensures QuitMessage([Entry(FatalKey, None), Entry(MessageKey, Some(v))])
         == Quoted(MessageKey) + Arrow + Quoted(v)
  {
    var s := [Entry(FatalKey, None), Entry(MessageKey, Some(v))];
    assert s[..1][..0] == [];
    assert FatalKey[0] != MessageKey[0];
    assert Keys(s)[0] == FatalKey;
    assert QuitMessage(s[..1]) == [];
  }
}
