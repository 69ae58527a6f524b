/** The RouterOS version comparison inside `MTik::Connection#fetch`
    (lib/mtik/connection.rb:609-620): both versions are cut at every `.`,
    `rc`, `beta` and `alpha`, each piece is read with `String#to_i`, and the
    lists of numbers are compared lexicographically, a proper prefix being
    smaller. */
module Versions {

  import opened Bytes
  import opened Wrappers

  /** The version up to which `fetch` uses the old parameters. */
  const LegacyLimit: Bytes := FromAscii("4.9")

  // ---------------------------------------------------------------------
  // String#split(/(?:\.|rc|beta|alpha)/)

  /** The length of the separator that starts `s` (`.`, `rc`, `beta` or
      `alpha`, tried in this order), or 0 when none does. */
  function SeparatorLength(s: Bytes): (n: nat)
    ensures n <= |s|
    ensures n > 0 ==> s != [] && !IsDigit(s[0])
  {
    if |s| >= 1 && s[0] == Dot then 1
    else if |s| >= 2 && s[0] == 0x72 && s[1] == 0x63 then 2
    else if |s| >= 4 && s[0] == 0x62 && s[1] == 0x65 && s[2] == 0x74 && s[3] == 0x61 then 4
    else if |s| >= 5 && s[0] == 0x61 && s[1] == 0x6c && s[2] == 0x70 && s[3] == 0x68 && s[4] == 0x61 then 5
    else 0
  }

  /** The pieces of `s`, continuing a piece `cur` already begun; a final
      (possibly empty) piece is always emitted. */
  function Pieces(s: Bytes, cur: Bytes): (ps: seq<Bytes>)
    ensures ps != []
    decreases |s|
  {
    if s == [] then [cur]
    else if SeparatorLength(s) > 0 then [cur] + Pieces(s[SeparatorLength(s)..], [])
    else Pieces(s[1..], cur + [s[0]])
  }

  /** `split` without a limit drops the empty pieces at the end. */
  function DropTrailingEmpty(ps: seq<Bytes>): (qs: seq<Bytes>)
    ensures qs <= ps
    ensures qs == [] || qs[|qs| - 1] != []
    ensures forall k | |qs| <= k < |ps| :: ps[k] == []
  {
    if ps == [] then []
    else if ps[|ps| - 1] == [] then DropTrailingEmpty(ps[..|ps| - 1])
    else ps
  }

  function Split(s: Bytes): seq<Bytes>
  {
    DropTrailingEmpty(Pieces(s, []))
  }

  // ---------------------------------------------------------------------
  // String#to_i

  /** The digits from the start of `s`, a single `_` allowed between two
      digits, folded into `acc`. */
  function DigitRun(s: Bytes, acc: nat): nat
    decreases |s|
  {
    if s != [] && IsDigit(s[0]) then DigitRun(s[1..], acc * 10 + (Octet(s[0]) - 0x30))
    else if |s| >= 2 && s[0] == 0x5f && IsDigit(s[1]) then DigitRun(s[1..], acc)
    else acc
  }

  function SkipSpace(s: Bytes): (t: Bytes)
    ensures |t| <= |s| && t == s[|s| - |t|..]
    ensures t == [] || !IsSpace(t[0])
    ensures s != [] && !IsSpace(s[0]) ==> t == s
  {
    if s != [] && IsSpace(s[0]) then SkipSpace(s[1..]) else s
  }

  /** The unsigned decimal number that starts `s`, after an optional `0d`
      prefix; 0 when `s` does not start with a digit. */
  function Unsigned(s: Bytes): nat
  {
    var t := if |s| >= 3 && s[0] == 0x30 && (s[1] == 0x64 || s[1] == 0x44) && IsDigit(s[2]) then s[2..] else s;
    if t != [] && IsDigit(t[0]) then DigitRun(t, 0) else 0
  }

  /** `String#to_i`: leading white space, an optional sign, then the number;
      0 when there is none. */
  function ToI(s: Bytes): int
  {
    var t := SkipSpace(s);
    if t != [] && t[0] == 0x2d then -(Unsigned(t[1..]) as int)
    else if t != [] && t[0] == 0x2b then Unsigned(t[1..])
    else Unsigned(t)
  }

  function ToIAll(ps: seq<Bytes>): (ns: seq<int>)
    ensures |ns| == |ps|
    ensures forall k | 0 <= k < |ps| :: ns[k] == ToI(ps[k])
  {
    if ps == [] then [] else [ToI(ps[0])] + ToIAll(ps[1..])
  }

  /** `a.split(sr).map{|i| i.to_i}` */
  function VersionParts(v: Bytes): seq<int>
  {
    ToIAll(Split(v))
  }

  // ---------------------------------------------------------------------
  // The comparison

  /** `a.size <=> b.size` */
  function CompareSizes(m: nat, n: nat): int
  {
    if m < n then -1 else if m > n then 1 else 0
  }

  /** The value of the lambda: the first position where the lists differ
      decides, and when one is a prefix of the other the sizes do. */
  function Compare(a: seq<int>, b: seq<int>): (r: int)
    ensures -1 <= r <= 1
    decreases |a|
  {
    if a == [] || b == [] then CompareSizes(|a|, |b|)
    else if a[0] < b[0] then -1
    else if a[0] > b[0] then 1
    else Compare(a[1..], b[1..])
  }

  /** The lambda's loop (connection.rb:613-619). */
  method CompareLoop(a: seq<int>, b: seq<int>) returns (r: int)
    ensures r == Compare(a, b)
  {
    var i := 0;
    while i < |a| && i < |b|
      invariant 0 <= i <= |a| && i <= |b|
      invariant Compare(a[i..], b[i..]) == Compare(a, b)
      invariant CompareSizes(|a[i..]|, |b[i..]|) == CompareSizes(|a|, |b|)
    {
      if a[i] < b[i] {
        return -1;
      }
      if a[i] > b[i] {
        return 1;
      }
      assert a[i..][1..] == a[i + 1..] && b[i..][1..] == b[i + 1..];
      i := i + 1;
    }
    return CompareSizes(|a|, |b|);
  }

  /** `a` comes before `b`: at the first difference `a` is smaller, or `a`
      is a proper prefix of `b`. */
  predicate Before(a: seq<int>, b: seq<int>)
  {
    (exists k | 0 <= k < |a| && k < |b| :: a[..k] == b[..k] && a[k] < b[k])
    || (|a| < |b| && a == b[..|a|])
  }

  /** The comparison is the lexicographic order. */
  lemma {:induction false} CompareBefore(a: seq<int>, b: seq<int>)
    ensures Compare(a, b) == -1 <==> Before(a, b)
    decreases |a|
  {
    if a == [] || b == [] {
      if Before(a, b) {
        assert |a| < |b|;
      }
    } else if a[0] < b[0] {
      assert a[..0] == b[..0];
    } else if a[0] > b[0] {
      forall k | 0 < k <= |a| && k <= |b| ensures a[..k] != b[..k] {
        assert a[..k][0] == a[0] && b[..k][0] == b[0];
      }
      assert a[..|a|] == a;
    } else {
      CompareBefore(a[1..], b[1..]);
      if Before(a[1..], b[1..]) {
        if k :| 0 <= k < |a[1..]| && k < |b[1..]| && a[1..][..k] == b[1..][..k] && a[1..][k] < b[1..][k] {
          assert a[..k + 1] == [a[0]] + a[1..][..k];
          assert b[..k + 1] == [b[0]] + b[1..][..k];
        } else {
          assert a == [a[0]] + a[1..];
          assert b[..|a|] == [b[0]] + b[1..][..|a[1..]|];
        }
      }
      if Before(a, b) {
        if k :| 0 <= k < |a| && k < |b| && a[..k] == b[..k] && a[k] < b[k] {
          assert k > 0;
          assert a[1..][..k - 1] == a[..k][1..];
          assert b[1..][..k - 1] == b[..k][1..];
          assert a[1..][k - 1] < b[1..][k - 1];
        } else {
          assert a[1..] == b[1..][..|a[1..]|];
        }
      }
    }
  }

  /** Swapping the versions negates the answer. */
  lemma {:induction false} CompareAntisymmetric(a: seq<int>, b: seq<int>)
    ensures Compare(b, a) == -Compare(a, b)
    decreases |a|
  {
    if a != [] && b != [] && a[0] == b[0] {
      CompareAntisymmetric(a[1..], b[1..]);
    }
  }

  /** The answer is 0 exactly for equal lists. */
  lemma {:induction false} CompareZero(a: seq<int>, b: seq<int>)
    ensures Compare(a, b) == 0 <==> a == b
    decreases |a|
  {
    if a != [] && b != [] && a[0] == b[0] {
      CompareZero(a[1..], b[1..]);
      assert a == [a[0]] + a[1..] && b == [b[0]] + b[1..];
    }
  }

  /** `fetch` uses the old `mode`/`src-path` parameters exactly when a
      version is known and it is at most 4.9. */
  predicate UsesLegacyFetch(osVersion: Option<Bytes>)
  {
    osVersion.Some? && Compare(VersionParts(osVersion.value), VersionParts(LegacyLimit)) < 1
  }

  // ---------------------------------------------------------------------
  // Reading back versions written as dotted numbers

  /** The version `n0.n1...` */
  function Dotted(ns: seq<nat>): Bytes
    requires ns != []
  {
    if |ns| == 1 then DecimalString(ns[0]) else DecimalString(ns[0]) + [Dot] + Dotted(ns[1..])
  }

  /** A digit joins the current piece. */
  lemma PiecesDigit(u: Bytes, cur: Bytes)
    requires u != [] && IsDigit(u[0])
    ensures Pieces(u, cur) == Pieces(u[1..], cur + [u[0]])
  {
    assert SeparatorLength(u) == 0;
  }

  lemma {:induction false} PiecesDigits(w: Bytes, t: Bytes, cur: Bytes)
    requires forall i | 0 <= i < |w| :: IsDigit(w[i])
    ensures Pieces(w + t, cur) == Pieces(t, cur + w)
    decreases |w|
  {
    if w != [] {
      var u := w + t;
      assert u[0] == w[0] && u[1..] == w[1..] + t;
      PiecesDigit(u, cur);
      PiecesDigits(w[1..], t, cur + [w[0]]);
      assert cur + [w[0]] + w[1..] == cur + w;
    } else {
      assert w + t == t && cur + w == cur;
    }
  }

  /** A number followed by a dot is one piece. */
  lemma PiecesField(d: Bytes, t: Bytes)
    requires forall i | 0 <= i < |d| :: IsDigit(d[i])
    ensures Pieces(d + ([Dot] + t), []) == [d] + Pieces(t, [])
  {
    PiecesDigits(d, [Dot] + t, []);
    assert [] + d == d;
    assert SeparatorLength([Dot] + t) == 1;
    assert ([Dot] + t)[1..] == t;
  }

  lemma PiecesLast(d: Bytes)
    requires forall i | 0 <= i < |d| :: IsDigit(d[i])
    ensures Pieces(d, []) == [d]
  {
    PiecesDigits(d, [], []);
    assert d + [] == d && [] + d == d;
  }

  /** The decimal writings of the numbers, in order. */
  function Decimals(ns: seq<nat>): seq<Bytes>
  {
    if ns == [] then [] else [DecimalString(ns[0])] + Decimals(ns[1..])
  }

  lemma {:induction false} PiecesDotted(ns: seq<nat>)
    requires ns != []
    ensures Pieces(Dotted(ns), []) == Decimals(ns)
    decreases |ns|
  {
    if |ns| == 1 {
      PiecesLast(DecimalString(ns[0]));
    } else {
      var d, rest := DecimalString(ns[0]), Dotted(ns[1..]);
      assert Dotted(ns) == d + ([Dot] + rest) by {
        assert d + [Dot] + rest == d + ([Dot] + rest);
      }
      PiecesField(d, rest);
      PiecesDotted(ns[1..]);
    }
  }

  /** Every digit run is read back as its value. */
  lemma {:induction false} DigitRunSnoc(s: Bytes, d: byte, acc: nat)
    requires forall i | 0 <= i < |s| :: IsDigit(s[i])
    requires IsDigit(d)
    ensures DigitRun(s + [d], acc) == DigitRun(s, acc) * 10 + (Octet(d) - 0x30)
    decreases |s|
  {
    if s != [] {
      assert (s + [d])[1..] == s[1..] + [d];
      DigitRunSnoc(s[1..], d, acc * 10 + (Octet(s[0]) - 0x30));
    }
  }

  lemma {:induction false} DigitRunValue(s: Bytes)
    requires forall i | 0 <= i < |s| :: IsDigit(s[i])
    ensures DigitRun(s, 0) == DigitsValue(s)
    decreases |s|
  {
    if s != [] {
      var init := s[..|s| - 1];
      DigitRunValue(init);
      DigitRunSnoc(init, s[|s| - 1], 0);
      assert init + [s[|s| - 1]] == s;
    }
  }

  /** `to_i` reads a string of digits as its value. */
  lemma ToIDigits(s: Bytes)
    requires s != [] && forall i | 0 <= i < |s| :: IsDigit(s[i])
    ensures ToI(s) == DigitsValue(s)
  {
    assert SkipSpace(s) == s;
    if |s| >= 3 {
      assert IsDigit(s[1]);
    }
    assert Unsigned(s) == DigitRun(s, 0);
    DigitRunValue(s);
  }

  /** `to_i` reads back the decimal writing of a number. */
  lemma ToIDecimal(n: nat)
    ensures ToI(DecimalString(n)) == n
  {
    ToIDigits(DecimalString(n));
    DecimalStringValue(n);
  }

  lemma {:induction false} ToIAllDecimals(ns: seq<nat>)
    ensures ToIAll(Decimals(ns)) == ns
    decreases |ns|
  {
    if ns != [] {
      ToIDecimal(ns[0]);
      ToIAllDecimals(ns[1..]);
      assert Decimals(ns)[1..] == Decimals(ns[1..]);
    }
  }

  /** A version written as dotted numbers is read back as those numbers. */
  lemma VersionPartsDotted(ns: seq<nat>)
    requires ns != []
    ensures VersionParts(Dotted(ns)) == ns
  {
    PiecesDotted(ns);
    LastDecimal(ns);
    ToIAllDecimals(ns);
  }

  lemma {:induction false} LastDecimal(ns: seq<nat>)
    requires ns != []
    ensures |Decimals(ns)| == |ns| && Decimals(ns)[|ns| - 1] == DecimalString(ns[|ns| - 1])
    decreases |ns|
  {
    if |ns| > 1 {
      LastDecimal(ns[1..]);
    }
  }

  /** For a dotted version, `fetch` takes the old parameters exactly when
      the version comes before 4.9 or is 4.9. */
  lemma LegacyFetchDotted(ns: seq<nat>)
    requires ns != []
    ensures UsesLegacyFetch(Some(Dotted(ns))) <==> Before(ns, [4, 9]) || ns == [4, 9]
  {
    VersionPartsDotted(ns);
    VersionPartsDotted([4, 9]);
    assert Dotted([4, 9]) == LegacyLimit by {
      assert Dotted([9]) == DecimalString(9);
    }
    CompareBefore(ns, [4, 9]);
    CompareZero(ns, [4, 9]);
  }
}
