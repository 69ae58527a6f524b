/** The two loops of `MTik::Connection#get_sentence`
    (lib/mtik/connection.rb:188-258) as functions of the receive buffer and
    of the chunks still to arrive. The word loop takes words off the front
    of the buffer until the decoder asks for more data, a word fails to
    decode, or a zero-length word ends the sentence; the read loop then
    appends the next chunk a socket read delivers and parses again. These
    functions are the specification `Connections.Connection.GetSentence`
    is proved against. */
module Reader {

  import opened Bytes
  import opened Errors
  import opened Codec
  import opened Sentences

  /** Where one run of the word loop stops. `rest` is what is left in the
      buffer. */
  datatype Parsed =
    | Finished(sentence: Sentence, rest: Bytes)
    | NeedMore(sentence: Sentence, rest: Bytes)
    | Failed(error: Error, rest: Bytes)

  /** The word-parsing loop (connection.rb:200-237), starting from the words
      already collected in `s`. */
  function ParseWords(data: Bytes, s: Sentence): Parsed
    decreases |data|
  {
    match GetTikword(data)
    case Err(e) => Failed(e, data)
    case Ok(Partial) => NeedMore(s, data)
    case Ok(Complete(c, w)) =>
      GetTikwordOutcome(data);
      var rest := data[c..];
      if w == [] then
        if s == [] then Failed(EmptySentence, rest) else Finished(s, rest)
      else
        ParseWords(rest, AddWord(s, w))
  }

  /** What one call of `get_sentence` leaves behind: the sentence or the error
      raised, the buffer, and the chunks not yet read. */
  datatype Read = Read(outcome: Result<Sentence>, data: Bytes, incoming: seq<Bytes>)

  /** The read-data loop (connection.rb:197-257). Running out of chunks is
      the command time-out of `IO.select`. */
  function ReadSentence(data: Bytes, incoming: seq<Bytes>, s: Sentence): Read
    decreases |incoming|
  {
    match ParseWords(data, s)
    case Finished(s', rest) => Read(Ok(s'), rest, incoming)
    case Failed(e, rest) => Read(Err(e), rest, incoming)
    case NeedMore(s', rest) =>
      if incoming == [] then Read(Err(CommandTimeout), rest, [])
      else ReadSentence(rest + incoming[0], incoming[1..], s')
  }

  function Concat(chunks: seq<Bytes>): Bytes
  {
    if chunks == [] then [] else chunks[0] + Concat(chunks[1..])
  }

  /** Everything buffered or still to arrive. */
  function Pending(data: Bytes, incoming: seq<Bytes>): Bytes
  {
    data + Concat(incoming)
  }

  function Rest(p: Parsed): Bytes
  {
    match p
    case Finished(_, r) => r
    case NeedMore(_, r) => r
    case Failed(_, r) => r
  }

  // ---------------------------------------------------------------------
  // Consumption

  /** The word loop removes exactly the bytes it has consumed from the front
      of the buffer, at least one byte when it finishes a sentence, and none
      when the decoder fails on the first word. */
  lemma {:induction false} ParseWordsConsumes(data: Bytes, s: Sentence)
    ensures |Rest(ParseWords(data, s))| <= |data|
    ensures Rest(ParseWords(data, s)) == data[|data| - |Rest(ParseWords(data, s))|..]
    ensures ParseWords(data, s).Finished? ==> |Rest(ParseWords(data, s))| < |data|
    decreases |data|
  {
    GetTikwordOutcome(data);
    match GetTikword(data)
    case Err(_) =>
    case Ok(Partial) =>
    case Ok(Complete(c, w)) =>
      var rest := data[c..];
      if w != [] {
        ParseWordsConsumes(rest, AddWord(s, w));
        var r := Rest(ParseWords(rest, AddWord(s, w)));
        assert rest[|rest| - |r|..] == data[|data| - |r|..];
      }
  }

  /** `x` is what remains of `y` once a prefix is taken off. */
  predicate IsSuffix(x: Bytes, y: Bytes)
  {
    |x| <= |y| && x == y[|y| - |x|..]
  }

  lemma SuffixTrans(x: Bytes, y: Bytes, z: Bytes)
    requires IsSuffix(x, y) && IsSuffix(y, z)
    ensures IsSuffix(x, z)
  {
    assert z[|z| - |y|..][|y| - |x|..] == z[|z| - |x|..];
  }

  lemma PendingSuffix(data: Bytes, rest: Bytes, incoming: seq<Bytes>)
    requires IsSuffix(rest, data)
    ensures IsSuffix(Pending(rest, incoming), Pending(data, incoming))
  {
    var c := Concat(incoming);
    assert (data + c)[|data + c| - |rest + c|..] == data[|data| - |rest|..] + c;
  }

  lemma PendingShift(rest: Bytes, incoming: seq<Bytes>)
    requires incoming != []
    ensures Pending(rest + incoming[0], incoming[1..]) == Pending(rest, incoming)
  {
  }

  /** `get_sentence` consumes a prefix of the pending bytes, and at least one
      byte whenever it returns a sentence. */
  lemma {:induction false} ReadSentenceConsumes(data: Bytes, incoming: seq<Bytes>, s: Sentence)
    ensures var r := ReadSentence(data, incoming, s);
      && |Pending(r.data, r.incoming)| <= |Pending(data, incoming)|
      && Pending(r.data, r.incoming)
         == Pending(data, incoming)[|Pending(data, incoming)| - |Pending(r.data, r.incoming)|..]
      && (r.outcome.Ok? ==> |Pending(r.data, r.incoming)| < |Pending(data, incoming)|)
    decreases |incoming|
  {
    ReadSentenceSuffix(data, incoming, s);
  }

  lemma {:induction false} ReadSentenceSuffix(data: Bytes, incoming: seq<Bytes>, s: Sentence)
    ensures var r := ReadSentence(data, incoming, s);
      && IsSuffix(Pending(r.data, r.incoming), Pending(data, incoming))
      && (r.outcome.Ok? ==> |Pending(r.data, r.incoming)| < |Pending(data, incoming)|)
    decreases |incoming|
  {
    var p := ParseWords(data, s);
    ParseWordsConsumes(data, s);
    var rest := Rest(p);
    PendingSuffix(data, rest, incoming);
    if p.NeedMore? && incoming != [] {
      var next := rest + incoming[0];
      ReadSentenceSuffix(next, incoming[1..], p.sentence);
      PendingShift(rest, incoming);
      var r := ReadSentence(next, incoming[1..], p.sentence);
      SuffixTrans(Pending(r.data, r.incoming), Pending(rest, incoming), Pending(data, incoming));
    } else if p.NeedMore? {
      assert Pending(rest, []) == rest;
    }
  }

  /** A sentence `get_sentence` returns is never empty. */
  lemma {:induction false} ParseWordsNonEmpty(data: Bytes, s: Sentence)
    requires ParseWords(data, s).Finished?
    ensures ParseWords(data, s).sentence != []
    decreases |data|
  {
    GetTikwordOutcome(data);
    match GetTikword(data)
    case Ok(Complete(c, w)) =>
      if w != [] {
        ParseWordsNonEmpty(data[c..], AddWord(s, w));
      }
  }

  lemma {:induction false} ReadSentenceNonEmpty(data: Bytes, incoming: seq<Bytes>, s: Sentence)
    ensures ReadSentence(data, incoming, s).outcome.Ok? ==> ReadSentence(data, incoming, s).outcome.value != []
    decreases |incoming|
  {
    var p := ParseWords(data, s);
    if p.Finished? {
      ParseWordsNonEmpty(data, s);
    } else if p.NeedMore? && incoming != [] {
      ReadSentenceNonEmpty(p.rest + incoming[0], incoming[1..], p.sentence);
    }
  }

  // ---------------------------------------------------------------------
  // Independence from how the bytes are split into chunks

  /** A sentence that is complete, or a failure, stays so when more bytes
      follow; the bytes that follow are left in the buffer. */
  lemma {:induction false} ParseWordsExtend(data: Bytes, s: Sentence, more: Bytes)
    requires !ParseWords(data, s).NeedMore?
    ensures ParseWords(data + more, s) == match ParseWords(data, s)
      case Finished(s', r) => Finished(s', r + more)
      case Failed(e, r) => Failed(e, r + more)
      case NeedMore(s', r) => NeedMore(s', r + more)
    decreases |data|
  {
    GetTikwordOutcome(data);
    GetTikwordExtend(data, more);
    match GetTikword(data)
    case Err(_) =>
    case Ok(Complete(c, w)) =>
      assert (data + more)[c..] == data[c..] + more;
      if w != [] {
        ParseWordsExtend(data[c..], AddWord(s, w), more);
      }
  }

  /** Parsing resumes where it stopped: when the loop runs out of data, the
      bytes that arrive next are parsed as if they had been there all
      along. */
  lemma {:induction false} ParseWordsResume(data: Bytes, s: Sentence, more: Bytes)
    requires ParseWords(data, s).NeedMore?
    ensures ParseWords(data + more, s)
         == ParseWords(ParseWords(data, s).rest + more, ParseWords(data, s).sentence)
    decreases |data|
  {
    GetTikwordOutcome(data);
    match GetTikword(data)
    case Ok(Partial) =>
    case Ok(Complete(c, w)) =>
      GetTikwordExtend(data, more);
      assert (data + more)[c..] == data[c..] + more;
      ParseWordsResume(data[c..], AddWord(s, w), more);
  }

  lemma SameParseSameRead(x: Bytes, s: Sentence, y: Bytes, t: Sentence)
    requires ParseWords(x, s) == ParseWords(y, t)
    ensures ReadSentence(x, [], s) == ReadSentence(y, [], t)
  {
  }

  /** `get_sentence` gives the same answer however the incoming bytes are cut
      into chunks: reading them one chunk at a time agrees with having all
      of them at once, and what one call leaves unread is the same bytes. */
  lemma {:induction false} ReadSentenceChunking(data: Bytes, incoming: seq<Bytes>, s: Sentence)
    ensures var r1, r2 := ReadSentence(data, incoming, s), ReadSentence(Pending(data, incoming), [], s);
      && r1.outcome == r2.outcome
      && Pending(r1.data, r1.incoming) == r2.data
    decreases |incoming|
  {
    var all := Pending(data, incoming);
    var p := ParseWords(data, s);
    if incoming == [] {
      assert all == data;
    } else if p.NeedMore? {
      var next := p.rest + incoming[0];
      assert ReadSentence(data, incoming, s) == ReadSentence(next, incoming[1..], p.sentence);
      ReadSentenceChunking(next, incoming[1..], p.sentence);
      ParseWordsResume(data, s, Concat(incoming));
      PendingShift(p.rest, incoming);
      SameParseSameRead(all, s, p.rest + Concat(incoming), p.sentence);
    } else {
      ParseWordsExtend(data, s, Concat(incoming));
      assert ReadSentence(data, incoming, s).data == p.rest;
    }
  }

  // ---------------------------------------------------------------------
  // Reading back what the encoder writes

  /** The sentence the words make, in order. */
  function AddWords(s: Sentence, ws: seq<Bytes>): Sentence
    decreases |ws|
  {
    if ws == [] then s else AddWords(AddWord(s, ws[0]), ws[1..])
  }

  predicate ShortWords(ws: seq<Bytes>)
  {
    forall i | 0 <= i < |ws| :: 0 < |ws[i]| < 0x80
  }

  /** Round trip of `request` and `get_tikword`: when every word is non-empty
      and shorter than 0x80 bytes, parsing the encoded sentence reads the
      words back in order, then the zero-length word, and consumes exactly
      the encoding. */
  lemma {:induction false} SentenceRoundTrip(ws: seq<Bytes>, s: Sentence, tail: Bytes)
    requires ShortWords(ws) && (s != [] || ws != [])
    ensures EncodeSentence(ws).Ok?
    ensures ParseWords(EncodeSentence(ws).value + tail, s) == Finished(AddWords(s, ws), tail)
    decreases |ws|
  {
    if ws == [] {
      assert EncodeSentence(ws).value + tail == [0x00] + tail;
      EncodeDecodeShort([], tail);
    } else {
      ShortWordsTail(ws);
      SentenceRoundTrip(ws[1..], AddWord(s, ws[0]), tail);
      RoundTripStep(ws, s, tail);
    }
  }

  lemma ShortWordsTail(ws: seq<Bytes>)
    requires ShortWords(ws) && ws != []
    ensures ShortWords(ws[1..]) && 0 < |ws[0]| < 0x80
  {
    forall i | 0 <= i < |ws[1..]| ensures 0 < |ws[1..][i]| < 0x80 {
      assert ws[1..][i] == ws[1 + i];
    }
  }

  /** One word more in front of an encoding that reads back. */
  lemma RoundTripStep(ws: seq<Bytes>, s: Sentence, tail: Bytes)
    requires ws != [] && 0 < |ws[0]| < 0x80 && EncodeSentence(ws[1..]).Ok?
    requires ParseWords(EncodeSentence(ws[1..]).value + tail, AddWord(s, ws[0]))
               == Finished(AddWords(AddWord(s, ws[0]), ws[1..]), tail)
    ensures EncodeSentence(ws).Ok?
    ensures ParseWords(EncodeSentence(ws).value + tail, s) == Finished(AddWords(s, ws), tail)
  {
    var w := ws[0];
    EncodeDecodeShort(w, []);
    var head := ToTikword(w).value;
    var others := EncodeSentence(ws[1..]).value;
    EncodeSentenceCons(ws);
    Associative(head, others, tail);
    ParseShortWord(w, others + tail, s);
  }

  lemma Associative(a: Bytes, b: Bytes, c: Bytes)
    ensures (a + b) + c == a + (b + c)
  {
  }

  /** The encoding of a sentence is its first word's encoding followed by
      the encoding of the others. */
  lemma EncodeSentenceCons(ws: seq<Bytes>)
    requires ws != [] && ToTikword(ws[0]).Ok? && EncodeSentence(ws[1..]).Ok?
    ensures EncodeSentence(ws) == Ok(ToTikword(ws[0]).value + EncodeSentence(ws[1..]).value)
  {
  }

  /** A short non-empty word at the front is read and parsing continues
      after it. */
  lemma ParseShortWord(w: Bytes, rest: Bytes, s: Sentence)
    requires 0 < |w| < 0x80
    ensures ToTikword(w).Ok?
    ensures ParseWords(ToTikword(w).value + rest, s) == ParseWords(rest, AddWord(s, w))
  {
    EncodeDecodeShort(w, rest);
    var data := ToTikword(w).value + rest;
    assert data[1 + |w|..] == rest;
  }

  /** Round trip through the read loop: the encoded sentence arrives in any
      number of chunks, and `get_sentence` returns it and leaves exactly the
      bytes after it. */
  lemma SentenceRoundTripChunked(ws: seq<Bytes>, incoming: seq<Bytes>, tail: Bytes)
    requires ShortWords(ws) && ws != []
    requires EncodeSentence(ws).Ok? && Concat(incoming) == EncodeSentence(ws).value + tail
    ensures ReadSentence([], incoming, []).outcome == Ok(AddWords([], ws))
    ensures Pending(ReadSentence([], incoming, []).data, ReadSentence([], incoming, []).incoming) == tail
  {
    ReadSentenceChunking([], incoming, []);
    SentenceRoundTrip(ws, [], tail);
    assert Pending([], incoming) == EncodeSentence(ws).value + tail;
  }
}
