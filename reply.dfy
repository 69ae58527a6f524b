/** `MTik::Reply` (lib/mtik/reply.rb): the sentences a request received, in
    arrival order, with two lookups by key. */
module Replies {

  import opened Bytes
  import opened Wrappers
  import opened Sentences

  type Reply = seq<Sentence>

  /** `find_sentence`: the scan returns at the first sentence holding `key`. */
  function FindSentence(r: Reply, key: Bytes): Option<Sentence>
  {
    if r == [] then None
    else if HasKey(r[0], key) then Some(r[0])
    else FindSentence(r[1..], key)
  }

  /** `find_sentences`: `select` keeps the sentences holding `key`. */
  function FindSentences(r: Reply, key: Bytes): Reply
  {
    if r == [] then []
    else if HasKey(r[0], key) then [r[0]] + FindSentences(r[1..], key)
    else FindSentences(r[1..], key)
  }

  /** `find_sentence` answers with the first match: the sentence it returns
      holds the key and no earlier sentence does; it answers nil exactly when
      no sentence holds the key. */
  lemma {:induction false} FindSentenceFirst(r: Reply, key: Bytes)
    ensures FindSentence(r, key).None? <==> forall i | 0 <= i < |r| :: !HasKey(r[i], key)
    ensures FindSentence(r, key).Some? ==>
      exists i | 0 <= i < |r| ::
        && r[i] == FindSentence(r, key).value
        && HasKey(r[i], key)
        && forall j | 0 <= j < i :: !HasKey(r[j], key)
  {
    if r != [] {
      FindSentenceFirst(r[1..], key);
      if !HasKey(r[0], key) {
        if FindSentence(r, key).Some? {
          var i :| 0 <= i < |r[1..]| && r[1..][i] == FindSentence(r, key).value
                   && HasKey(r[1..][i], key) && forall j | 0 <= j < i :: !HasKey(r[1..][j], key);
          assert r[1 + i] == r[1..][i];
          forall j | 0 <= j < 1 + i ensures !HasKey(r[j], key) {
            if j > 0 {
              assert r[j] == r[1..][j - 1];
            }
          }
        } else {
          forall i | 0 <= i < |r| ensures !HasKey(r[i], key) {
            if i > 0 {
              assert r[i] == r[1..][i - 1];
            }
          }
        }
      } else {
        assert r[0] == FindSentence(r, key).value;
      }
    }
  }

  /** `find_sentences` keeps exactly the sentences holding the key, in their
      original order: every selected sentence holds the key, and every
      sentence of the reply that holds the key occurs in it as often as in
      the reply, and no other sentence occurs in it. */
  lemma {:induction false} FindSentencesSelects(r: Reply, key: Bytes)
    ensures forall i | 0 <= i < |FindSentences(r, key)| :: HasKey(FindSentences(r, key)[i], key)
    ensures |FindSentences(r, key)| <= |r|
    ensures forall x: Sentence ::
      multiset(FindSentences(r, key))[x] == if HasKey(x, key) then multiset(r)[x] else 0
  {
    if r != [] {
      FindSentencesSelects(r[1..], key);
      assert r == [r[0]] + r[1..];
    }
  }

  /** Selecting distributes over concatenation, so the matches of a reply
      keep their arrival order. */
  lemma {:induction false} FindSentencesAppend(a: Reply, b: Reply, key: Bytes)
    ensures FindSentences(a + b, key) == FindSentences(a, key) + FindSentences(b, key)
  {
    if a != [] {
      FindSentencesAppend(a[1..], b, key);
      assert (a + b)[1..] == a[1..] + b;
    } else {
      assert a + b == b;
    }
  }

  /** The sentence `find_sentence` returns is the first of those
      `find_sentences` returns, and nil when there are none. */
  lemma {:induction false} FindSentenceIsFirstOfFindSentences(r: Reply, key: Bytes)
    ensures FindSentence(r, key) ==
      if FindSentences(r, key) == [] then None else Some(FindSentences(r, key)[0])
  {
    if r != [] && !HasKey(r[0], key) {
      FindSentenceIsFirstOfFindSentences(r[1..], key);
    }
  }
}
