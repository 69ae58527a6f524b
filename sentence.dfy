/** Reply sentences. `get_sentence` collects the words of one sentence into a
    Ruby Hash: a word `=key=value` (or `key=value`) becomes the entry
    key => value and any other word becomes word => nil
    (lib/mtik/connection.rb:229-235). A Ruby Hash keeps insertion order and
    overwrites the value of a key already present in place, so a sentence is
    an ordered sequence of entries. */
module Sentences {

  import opened Bytes
  import opened Wrappers

  datatype Entry = Entry(key: Bytes, value: Option<Bytes>)

  type Sentence = seq<Entry>

  /** The keys in insertion order (`Hash#each_key`). */
  function Keys(s: Sentence): seq<Bytes>
  {
    if s == [] then [] else [s[0].key] + Keys(s[1..])
  }

  /** `Hash#key?` */
  predicate HasKey(s: Sentence, k: Bytes)
  {
    k in Keys(s)
  }

  /** `Hash#[]`: the value stored under `k`, `None` both for a missing key and
      for a key stored with nil. */
  function Get(s: Sentence, k: Bytes): Option<Bytes>
  {
    if s == [] then None else if s[0].key == k then s[0].value else Get(s[1..], k)
  }

  predicate UniqueKeys(s: Sentence)
  {
    forall i, j | 0 <= i < j < |s| :: s[i].key != s[j].key
  }

  /** `Hash#[]=`: overwrite the entry of `k` where it stands, or append one. */
  function Put(s: Sentence, k: Bytes, v: Option<Bytes>): Sentence
  {
    if s == [] then [Entry(k, v)]
    else if s[0].key == k then [Entry(k, v)] + s[1..]
    else [s[0]] + Put(s[1..], k, v)
  }

  lemma {:induction false} KeysLength(s: Sentence)
    ensures |Keys(s)| == |s|
    ensures forall i | 0 <= i < |s| :: Keys(s)[i] == s[i].key
  {
    if s != [] {
      KeysLength(s[1..]);
    }
  }

  /** Storing a key changes that key's value only: the key order is kept, and
      a new key goes last. */
  lemma {:induction false} PutSpec(s: Sentence, k: Bytes, v: Option<Bytes>, k2: Bytes)
    ensures Get(Put(s, k, v), k2) == if k2 == k then v else Get(s, k2)
    ensures Keys(Put(s, k, v)) == if HasKey(s, k) then Keys(s) else Keys(s) + [k]
    ensures HasKey(Put(s, k, v), k2) <==> k2 == k || HasKey(s, k2)
  {
    if s != [] && s[0].key != k {
      PutSpec(s[1..], k, v, k2);
      assert Keys(s) == [s[0].key] + Keys(s[1..]);
    }
  }

  /** A sentence built by `Put` never holds a key twice. */
  lemma {:induction false} PutUnique(s: Sentence, k: Bytes, v: Option<Bytes>)
    requires UniqueKeys(s)
    ensures UniqueKeys(Put(s, k, v))
    ensures |Put(s, k, v)| == if HasKey(s, k) then |s| else |s| + 1
  {
    PutSpec(s, k, v, k);
    KeysLength(s);
    KeysLength(Put(s, k, v));
    if s != [] && s[0].key != k {
      PutUnique(s[1..], k, v);
      var t := Put(s, k, v);
      forall i, j | 0 <= i < j < |t|
        ensures t[i].key != t[j].key
      {
        if i == 0 {
          assert t[j].key == Keys(t)[j];
          assert Keys(t)[j] in Keys(Put(s[1..], k, v));
          PutSpec(s[1..], k, v, s[0].key);
          KeysLength(s[1..]);
        }
      }
    }
  }

  // ---------------------------------------------------------------------
  // The word pattern /^=?([^=]+)=(.*)$/ of connection.rb:230.
  //
  // `^` matches at the start of the word and after every newline; `[^=]`
  // matches any byte but `=`, newlines included; `.` matches any byte but a
  // newline, and `$` matches before a newline or at the end. The match taken
  // is the one at the leftmost line start where the pattern succeeds.

  /** `i` is a position where `^` matches. */
  predicate AtLineStart(w: Bytes, i: nat)
    requires i <= |w|
  {
    i == 0 || w[i - 1] == Newline
  }

  /** The first position at or after `q` holding `=`, or the end. */
  function EqualsFrom(w: Bytes, q: nat): (r: nat)
    requires q <= |w|
    ensures q <= r <= |w|
    ensures forall i | q <= i < r :: w[i] != EqualsSign
    ensures r < |w| ==> w[r] == EqualsSign
    decreases |w| - q
  {
    if q == |w| || w[q] == EqualsSign then q else EqualsFrom(w, q + 1)
  }

  /** The first position at or after `q` holding a newline, or the end. */
  function LineEnd(w: Bytes, q: nat): (r: nat)
    requires q <= |w|
    ensures q <= r <= |w|
    ensures forall i | q <= i < r :: w[i] != Newline
    ensures r < |w| ==> w[r] == Newline
    decreases |w| - q
  {
    if q == |w| || w[q] == Newline then q else LineEnd(w, q + 1)
  }

  /** The pattern tried at position `p`: an optional `=`, the longest run of
      bytes other than `=` (which must be non-empty and be followed by `=`),
      then everything up to the next newline. */
  function MatchAt(w: Bytes, p: nat): Option<(Bytes, Bytes)>
    requires p <= |w|
  {
    var q := if p < |w| && w[p] == EqualsSign then p + 1 else p;
    var r := EqualsFrom(w, q);
    if q < r < |w| then Some((w[q..r], w[r + 1..LineEnd(w, r + 1)])) else None
  }

  function SplitFrom(w: Bytes, p: nat): Option<(Bytes, Bytes)>
    requires p <= |w|
    decreases |w| - p
  {
    if AtLineStart(w, p) && MatchAt(w, p).Some? then MatchAt(w, p)
    else if p == |w| then None
    else SplitFrom(w, p + 1)
  }

  /** `/^=?([^=]+)=(.*)$/.match(word)`, as the pair of captures. */
  function SplitWord(w: Bytes): Option<(Bytes, Bytes)>
  {
    SplitFrom(w, 0)
  }

  /** The sentence after one more word (connection.rb:229-235). */
  function AddWord(s: Sentence, w: Bytes): Sentence
  {
    match SplitWord(w)
    case Some((k, v)) => Put(s, k, Some(v))
    case None => Put(s, w, None)
  }

  predicate NoByte(s: Bytes, b: byte)
  {
    forall i | 0 <= i < |s| :: s[i] != b
  }

  lemma {:induction false} SplitFromNoEquals(w: Bytes, p: nat)
    requires p <= |w| && NoByte(w, EqualsSign)
    ensures SplitFrom(w, p) == None
    decreases |w| - p
  {
    if p < |w| {
      SplitFromNoEquals(w, p + 1);
    }
  }

  /** A word without `=` (`!done`, `!re`, `!trap`, `!fatal`) is stored as a
      key with nil. */
  lemma SplitWordNoEquals(w: Bytes, s: Sentence)
    requires NoByte(w, EqualsSign)
    ensures SplitWord(w) == None
    ensures AddWord(s, w) == Put(s, w, None)
  {
    SplitFromNoEquals(w, 0);
  }

  lemma {:induction false} SplitFromSingleLine(w: Bytes, p: nat)
    requires 0 < p <= |w| && NoByte(w, Newline)
    ensures SplitFrom(w, p) == None
    decreases |w| - p
  {
    if p < |w| {
      SplitFromSingleLine(w, p + 1);
    }
  }

  lemma LineEndSingleLine(w: Bytes, q: nat)
    requires q <= |w| && NoByte(w, Newline)
    ensures LineEnd(w, q) == |w|
  {
  }

  /** For a word without newlines the pattern reads exactly the two attribute
      forms: `=key=value` and `key=value`, with a non-empty key free of `=`
      and a value that is the rest of the word. */
  lemma SplitWordSingleLine(w: Bytes, k: Bytes, v: Bytes)
    requires NoByte(w, Newline)
    ensures SplitWord(w) == Some((k, v)) <==>
      && k != [] && NoByte(k, EqualsSign)
      && (w == [EqualsSign] + k + [EqualsSign] + v || w == k + [EqualsSign] + v)
  {
    if |w| > 0 {
      SplitFromSingleLine(w, 1);
    }
    assert SplitWord(w) == MatchAt(w, 0);
    if SplitWord(w) == Some((k, v)) {
      SingleLineMatchShape(w);
    }
    if k != [] && NoByte(k, EqualsSign) {
      if w == [EqualsSign] + k + [EqualsSign] + v {
        forall i | 0 <= i < |v|
          ensures v[i] != Newline
        {
          assert v[i] == w[2 + |k| + i];
        }
        SplitWordAttribute(k, v);
      } else if w == k + [EqualsSign] + v {
        BareAttributeMatch(k, v);
      }
    }
  }

  lemma SingleLineMatchShape(w: Bytes)
    requires NoByte(w, Newline) && MatchAt(w, 0).Some?
    ensures var (k, v) := MatchAt(w, 0).value;
      && k != [] && NoByte(k, EqualsSign)
      && (w == [EqualsSign] + k + [EqualsSign] + v || w == k + [EqualsSign] + v)
  {
    var q := if 0 < |w| && w[0] == EqualsSign then 1 else 0;
    var r := EqualsFrom(w, q);
    LineEndSingleLine(w, r + 1);
    var k, v := w[q..r], w[r + 1..];
    assert q < r < |w|;
    assert w[r + 1..LineEnd(w, r + 1)] == v;
    assert MatchAt(w, 0) == Some((k, v));
    assert w == w[..q] + k + [EqualsSign] + v;
    if q == 1 {
      assert w[..q] == [EqualsSign];
    } else {
      assert w[..q] == [];
    }
  }

  lemma BareAttributeMatch(k: Bytes, v: Bytes)
    requires k != [] && NoByte(k, EqualsSign) && NoByte(k + [EqualsSign] + v, Newline)
    ensures MatchAt(k + [EqualsSign] + v, 0) == Some((k, v))
  {
    var w := k + [EqualsSign] + v;
    assert w[0] == k[0] && k[0] != EqualsSign;
    assert w[0..|k|] == k;
    EqualsPosition(w, 0, k);
    LineEndSingleLine(w, |k| + 1);
    assert w[|k| + 1..|w|] == v;
  }

  lemma EqualsPosition(w: Bytes, q: nat, k: Bytes)
    requires q + |k| < |w| && w[q..q + |k|] == k && NoByte(k, EqualsSign)
    requires w[q + |k|] == EqualsSign
    ensures EqualsFrom(w, q) == q + |k|
  {
  }

  /** Every attribute word the client itself writes, `=key=value` with a key
      free of `=` and a value free of newlines, reads back as key => value
      (the key itself may hold newlines). */
  lemma {:induction false} SplitWordAttribute(k: Bytes, v: Bytes)
    requires k != [] && NoByte(k, EqualsSign) && NoByte(v, Newline)
    ensures SplitWord([EqualsSign] + k + [EqualsSign] + v) == Some((k, v))
  {
    var w := [EqualsSign] + k + [EqualsSign] + v;
    assert w[1..1 + |k|] == k;
    EqualsPosition(w, 1, k);
    var e := LineEnd(w, 2 + |k|);
    assert e == |w|;
    assert w[1 + |k| + 1..e] == v;
    assert w[0] == EqualsSign;
    assert MatchAt(w, 0) == Some((k, v));
  }
}
