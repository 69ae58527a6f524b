/** The word codec of the RouterOS API: a length header of one to five bytes
    followed by the payload. `ToTikword` and `BytePack` model
    `MTik::Request.to_tikword` and `bytepack` (lib/mtik/request.rb), and
    `GetTikword` models `MTik::Connection#get_tikword` (lib/mtik/connection.rb).

    The two directions do not agree on byte order: the encoder writes the
    length bytes least significant first, the decoder reads them most
    significant first. Both are modelled as written; `CanonicalHeader` is the
    big-endian header the decoder expects, and the lemmas below say exactly
    where the two meet. */
module Codec {

  import opened Bytes
  import opened Errors

  function Pow256(k: nat): (p: nat)
    ensures p >= 1
  {
    if k == 0 then 1 else 256 * Pow256(k - 1)
  }

  // ---------------------------------------------------------------------
  // bytepack

  /** The bytes of `x`, least significant first, one byte per remaining
      non-zero high part; nothing at all for 0. */
  function LittleEndian(x: nat): Bytes
  {
    if x == 0 then [] else [ByteOf(x % 256)] + LittleEndian(x / 256)
  }

  /** The number a little-endian byte string stands for. */
  function LittleEndianValue(s: Bytes): nat
  {
    if s == [] then 0 else Octet(s[0]) + 256 * LittleEndianValue(s[1..])
  }

  /** `LittleEndian` loses nothing and never ends in a zero byte. */
  lemma {:induction false} LittleEndianRoundTrip(x: nat)
    ensures LittleEndianValue(LittleEndian(x)) == x
    ensures LittleEndian(x) != [] ==> Octet(LittleEndian(x)[|LittleEndian(x)| - 1]) != 0
  {
    if x > 0 {
      LittleEndianRoundTrip(x / 256);
      var s := LittleEndian(x);
      assert s[1..] == LittleEndian(x / 256);
    }
  }

  /** `LittleEndian(x)` has at most `k` bytes exactly when `x < 256^k`. */
  lemma {:induction false} LittleEndianWidth(x: nat, k: nat)
    ensures |LittleEndian(x)| <= k <==> x < Pow256(k)
  {
    if x > 0 && k > 0 {
      LittleEndianWidth(x / 256, k - 1);
      assert x / 256 < Pow256(k - 1) <==> x < 256 * Pow256(k - 1);
    }
  }

  /** `MTik::Request.bytepack`: the loop shifts the magnitude right one byte
      at a time and appends the low byte (`x & 0xff`, `x >>= 8` on a
      non-negative integer). */
  method BytePack(num: int) returns (s: Bytes)
    ensures s == LittleEndian(if num < 0 then -num else num)
  {
    var x: nat := if num < 0 then -num else num;
    s := [];
    while x > 0
      invariant s + LittleEndian(x) == LittleEndian(if num < 0 then -num else num)
      decreases x
    {
      s := s + [ByteOf(x % 256)];
      x := x / 256;
    }
  }

  // ---------------------------------------------------------------------
  // to_tikword

  /** The header width the protocol table assigns to a payload length. */
  function HeaderWidth(n: nat): nat
  {
    if n < 0x80 then 1
    else if n < 0x4000 then 2
    else if n < 0x20_0000 then 3
    else if n < 0x1000_0000 then 4
    else 5
  }

  /** `to_tikword` with the evident intent of request.rb:161 (the version
      test `RUBY_VERSION`), which is what the rest of the model uses. The
      flag is or-ed into a length below it, so `|` is an addition here. */
  function ToTikword(w: Bytes): Result<Bytes>
  {
    var n := |w|;
    if n < 0x80 then Ok([ByteOf(n)] + w)
    else if n < 0x4000 then Ok(LittleEndian(n + 0x8000) + w)
    else if n < 0x20_0000 then Ok(LittleEndian(n + 0xC0_0000) + w)
    else if n < 0x1000_0000 then Ok(LittleEndian(n + 0xE000_0000) + w)
    else if n < 0x1_0000_0000 then Ok([0xF0] + LittleEndian(n) + w)
    else Err(WordTooLong)
  }

  /** `to_tikword` exactly as written: every `bytepack` call first evaluates
      the undefined constant `RUBY_VERSIION` and raises NameError. */
  function ToTikwordAsWritten(w: Bytes): Result<Bytes>
  {
    if |w| < 0x80 || |w| >= 0x1_0000_0000 then ToTikword(w) else Err(UndefinedConstant)
  }

  /** As written, no word of 0x80 bytes or more can be encoded, although the
      intended encoder handles every length below 2^32. */
  lemma TypoBreaksLongWords(w: Bytes)
    requires 0x80 <= |w| < 0x1_0000_0000
    ensures ToTikwordAsWritten(w) == Err(UndefinedConstant)
    ensures ToTikword(w).Ok?
  {
  }

  /** `x` as exactly `k` bytes, most significant first. */
  function BigEndian(x: nat, k: nat): (s: Bytes)
    ensures |s| == k
  {
    if k == 0 then [] else BigEndian(x / 256, k - 1) + [ByteOf(x % 256)]
  }

  /** The number a big-endian byte string stands for. */
  function BigEndianValue(s: Bytes): nat
  {
    if s == [] then 0 else BigEndianValue(s[..|s| - 1]) * 256 + Octet(s[|s| - 1])
  }

  lemma {:induction false} BigEndianRoundTrip(x: nat, k: nat)
    requires x < Pow256(k)
    ensures BigEndianValue(BigEndian(x, k)) == x
  {
    if k > 0 {
      BigEndianRoundTrip(x / 256, k - 1);
      var s := BigEndian(x, k);
      assert s[..|s| - 1] == BigEndian(x / 256, k - 1);
    }
  }

  function Reverse(s: Bytes): (r: Bytes)
    ensures |r| == |s|
  {
    if s == [] then [] else Reverse(s[1..]) + [s[0]]
  }

  lemma {:induction false} ReverseAppendByte(s: Bytes, b: byte)
    ensures Reverse(s + [b]) == [b] + Reverse(s)
  {
    if s != [] {
      assert (s + [b])[1..] == s[1..] + [b];
      ReverseAppendByte(s[1..], b);
    } else {
      assert Reverse([b]) == Reverse([]) + [b];
    }
  }

  /** The least-significant-first bytes of a number that needs exactly `k`
      bytes are its `k`-byte big-endian form reversed. */
  lemma {:induction false} LittleIsReversedBig(x: nat, k: nat)
    requires k >= 1 && Pow256(k - 1) <= x < Pow256(k)
    ensures LittleEndian(x) == Reverse(BigEndian(x, k))
  {
    ReverseAppendByte(BigEndian(x / 256, k - 1), ByteOf(x % 256));
    if k == 1 {
      assert x / 256 == 0;
    } else {
      LittleIsReversedBig(x / 256, k - 1);
    }
  }

  /** The flag bits the header table puts above a length of each width. */
  function HeaderFlag(k: nat): nat
  {
    if k == 2 then 0x8000 else if k == 3 then 0xC0_0000 else if k == 4 then 0xE000_0000 else 0
  }

  /** The first byte's marker bits for a header of width `k`. */
  function Marker(k: nat): nat
  {
    if k == 2 then 0x80 else if k == 3 then 0xC0 else if k == 4 then 0xE0 else if k == 5 then 0xF0 else 0
  }

  /** `MTik::Request#request`: every word encoded by `to_tikword` in order,
      then the zero-length word that ends the sentence. The first word that
      cannot be encoded raises. */
  function EncodeSentence(ws: seq<Bytes>): Result<Bytes>
  {
    if ws == [] then Ok([0x00])
    else
      var head :- ToTikword(ws[0]);
      var tail :- EncodeSentence(ws[1..]);
      Ok(head + tail)
  }

  /** The encoding of a sentence fails exactly when one of its words is 2^32
      bytes or longer, and then with the error `to_tikword` raises. */
  lemma {:induction false} EncodeSentenceFails(ws: seq<Bytes>)
    ensures EncodeSentence(ws).Err? <==> exists i | 0 <= i < |ws| :: |ws[i]| >= 0x1_0000_0000
    ensures EncodeSentence(ws).Err? ==> EncodeSentence(ws).error == WordTooLong
  {
    if ws != [] {
      EncodeSentenceFails(ws[1..]);
      ToTikwordLayout(ws[0]);
      if EncodeSentence(ws[1..]).Err? {
        var i :| 0 <= i < |ws[1..]| && |ws[1..][i]| >= 0x1_0000_0000;
        assert |ws[1 + i]| >= 0x1_0000_0000;
      }
      if exists i | 0 <= i < |ws| :: |ws[i]| >= 0x1_0000_0000 {
        var i :| 0 <= i < |ws| && |ws[i]| >= 0x1_0000_0000;
        if i > 0 {
          assert |ws[1..][i - 1]| >= 0x1_0000_0000;
        }
      }
    }
  }

  /** The big-endian header `get_tikword` expects for a payload of `n` bytes:
      the length in `k` bytes with the marker bits above it, or, for five
      bytes, the marker 0xF0 and then the length in four bytes. */
  function CanonicalHeader(n: nat): (h: Bytes)
    requires n < 0x1_0000_0000
    ensures |h| == HeaderWidth(n)
  {
    var k := HeaderWidth(n);
    if k < 5 then BigEndian(n + Marker(k) * Pow256(k - 1), k) else [0xF0] + BigEndian(n, 4)
  }

  /** What `to_tikword` emits: the header width the table assigns, the
      payload unchanged after it, and the length bytes of the big-endian
      header in reverse order (after the 0xF0 marker for five bytes); at
      2^32 bytes or more it raises. */
  lemma ToTikwordLayout(w: Bytes)
    ensures ToTikword(w).Ok? <==> |w| < 0x1_0000_0000
    ensures ToTikword(w).Ok? ==>
      var e, k, c := ToTikword(w).value, HeaderWidth(|w|), CanonicalHeader(|w|);
      && |e| == k + |w|
      && e[k..] == w
      && (k < 5 ==> e[..k] == Reverse(c))
      && (k == 5 ==> e[0] == 0xF0 && e[1..5] == Reverse(c[1..]))
  {
    var n := |w|;
    if n < 0x1_0000_0000 {
      var k := HeaderWidth(n);
      var e := ToTikword(w).value;
      if k == 1 {
        assert BigEndian(n, 1) == BigEndian(n / 256, 0) + [ByteOf(n % 256)];
      } else if k == 2 {
        assert Pow256(1) == 0x100;
        LittleIsReversedBig(n + 0x8000, 2);
      } else if k == 3 {
        assert Pow256(2) == 0x1_0000;
        LittleIsReversedBig(n + 0xC0_0000, 3);
      } else if k == 4 {
        assert Pow256(3) == 0x100_0000;
        LittleIsReversedBig(n + 0xE000_0000, 4);
      } else {
        assert Pow256(3) == 0x100_0000;
        LittleIsReversedBig(n, 4);
        assert CanonicalHeader(n)[1..] == BigEndian(n, 4);
      }
    }
  }

  // ---------------------------------------------------------------------
  // get_tikword

  /** `get_tikword`'s two normal outcomes: `(0, nil)` when the buffer does not
      yet hold a whole word, and `(i + len, data[i, len])` when it does. */
  datatype Decoded = Partial | Complete(consumed: nat, word: Bytes)

  /** The header width the first byte announces, by the bit tests of
      `get_tikword` (see `MaskTests`): 0xxxxxxx, 10xxxxxx, 110xxxxx,
      1110xxxx or exactly 0xF0; 0 for a reserved byte. */
  function AnnouncedWidth(b: nat): (i: nat)
    ensures i <= 5
    ensures i != 0 ==> Marker(i) <= b
  {
    if b < 0x80 then 1
    else if b < 0xC0 then 2
    else if b < 0xE0 then 3
    else if b < 0xF0 then 4
    else if b == 0xF0 then 5
    else 0
  }

  /** The bit tests and masks of the decoder are byte ranges and the removal
      of the width's marker bits. */
  lemma MaskTests(x: bv8)
    ensures x & 0x80 == 0 <==> AnnouncedWidth(x as nat) == 1
    ensures x & 0xC0 == 0x80 <==> AnnouncedWidth(x as nat) == 2
    ensures x & 0xE0 == 0xC0 <==> AnnouncedWidth(x as nat) == 3
    ensures x & 0xF0 == 0xE0 <==> AnnouncedWidth(x as nat) == 4
    ensures x == 0xF0 <==> AnnouncedWidth(x as nat) == 5
    ensures AnnouncedWidth(x as nat) == 1 ==> (x & 0x7f) as nat == x as nat
    ensures AnnouncedWidth(x as nat) == 2 ==> (x & 0x3f) as nat == x as nat - 0x80
    ensures AnnouncedWidth(x as nat) == 3 ==> (x & 0x1f) as nat == x as nat - 0xC0
    ensures AnnouncedWidth(x as nat) == 4 ==> (x & 0x0f) as nat == x as nat - 0xE0
  {
  }

  /** The length a header of width `k` carries: the first byte without its
      marker bits above the remaining header bytes read most significant
      first. (The 0xF0 branch reads no bits from the first byte, which
      holds no bits besides the marker.) */
  function HeaderLength(data: Bytes, k: nat): nat
    requires 1 <= k <= |data| && AnnouncedWidth(Octet(data[0])) == k
  {
    (Octet(data[0]) - Marker(k)) * Pow256(k - 1) + BigEndianValue(data[1..k])
  }

  function TakeWord(data: Bytes, i: nat, len: nat): Result<Decoded>
    requires 1 <= i <= |data|
  {
    if |data| - i < len then Ok(Partial) else Ok(Complete(i + len, data[i..i + len]))
  }

  /** `get_tikword` as written, with guards `data.length > 0x81`, `> 0x4002`
      and `> 0x200003` for the two-, three- and four-byte headers. */
  function GetTikwordAsWritten(data: Bytes): Result<Decoded>
  {
    if |data| == 0 then Ok(Partial)
    else
      var i := AnnouncedWidth(Octet(data[0]));
      if i == 0 then Err(BadLengthEncoding)
      else if i == 2 && |data| <= 0x81 then Ok(Partial)
      else if i == 3 && |data| <= 0x4002 then Ok(Partial)
      else if i == 4 && |data| <= 0x20_0003 then Ok(Partial)
      // no guard for five bytes: reading a missing byte calls `ord` on nil
      else if i == 5 && |data| < 5 then Err(HeaderPastEnd)
      else TakeWord(data, i, HeaderLength(data, i))
  }

  /** `get_tikword` with the 0xF0 branch guarded like the other four:
      fewer than five buffered bytes mean "not enough data". */
  function GetTikword(data: Bytes): Result<Decoded>
  {
    if |data| >= 1 && data[0] == 0xF0 && |data| < 5 then Ok(Partial)
    else GetTikwordAsWritten(data)
  }

  /** Decoding fails only on a reserved first byte (0xF1..0xFF); a complete
      word is the payload that follows the header its first byte announces. */
  lemma GetTikwordOutcome(data: Bytes)
    ensures |data| == 0 ==> GetTikword(data) == Ok(Partial)
    ensures GetTikword(data).Err? <==> |data| > 0 && Octet(data[0]) > 0xF0
    ensures GetTikword(data).Err? ==> GetTikword(data).error == BadLengthEncoding
    ensures GetTikword(data).Ok? && GetTikword(data).value.Complete? ==>
      var i, d := AnnouncedWidth(Octet(data[0])), GetTikword(data).value;
      1 <= i <= d.consumed <= |data| && d.word == data[i..d.consumed]
  {
  }

  /** The fewest buffered bytes with which the branch for a header of width
      `k` reads the length: the guards `> 0x81`, `> 0x4002` and `> 0x200003`
      of the two-, three- and four-byte branches, and the header itself
      otherwise (for five bytes, the guard the corrected decoder adds). */
  function MinBuffered(k: nat): (n: nat)
    ensures k <= n
  {
    if k == 2 then 0x82 else if k == 3 then 0x4003 else if k == 4 then 0x20_0004 else k
  }

  /** For a first byte that announces a width `i`, decoding never fails; it
      waits for more data exactly when the buffer does not pass the branch's
      guard or holds fewer bytes after the header than the header's length,
      and otherwise the word is that many bytes right after the header,
      whether or not the header is the shortest one for that length. */
  lemma GetTikwordLength(data: Bytes)
    ensures |data| > 0 && AnnouncedWidth(Octet(data[0])) != 0 ==>
      var i := AnnouncedWidth(Octet(data[0]));
      && GetTikword(data).Ok?
      && (GetTikword(data) == Ok(Partial) <==>
           |data| < MinBuffered(i) || |data| - i < HeaderLength(data, i))
      && (GetTikword(data).value.Complete? ==>
           GetTikword(data).value == Complete(i + HeaderLength(data, i), data[i..i + HeaderLength(data, i)]))
  {
  }

  /** A non-minimal header is read like any other: 0x80 0x05 announces a
      five-byte word once the two-byte branch's guard is passed. */
  lemma NonMinimalHeader(w: Bytes)
    requires |w| == 0x80
    ensures GetTikword([0x80, 0x05] + w) == Ok(Complete(7, w[..5]))
  {
    var data := [0x80, 0x05] + w;
    assert data[1..2] == [0x05] && [0x05][..0] == [];
    assert HeaderLength(data, 2) == 5;
    GetTikwordLength(data);
    assert data[2..7] == w[..5];
  }

  /** The first byte of a big-endian string weighs `256^(|s|-1)`. */
  lemma {:induction false} BigEndianValueFirst(s: Bytes)
    requires |s| >= 1
    ensures BigEndianValue(s) == Octet(s[0]) * Pow256(|s| - 1) + BigEndianValue(s[1..])
    ensures BigEndianValue(s[1..]) < Pow256(|s| - 1)
  {
    var t := s[..|s| - 1];
    if |s| > 1 {
      BigEndianValueFirst(t);
      assert s[1..][..|s| - 2] == t[1..];
      ShiftByte(Octet(s[0]), Pow256(|s| - 2), BigEndianValue(t[1..]), Octet(s[|s| - 1]));
    }
  }

  lemma ShiftByte(a: nat, p: nat, r: nat, l: nat)
    requires r < p && l < 256
    ensures (a * p + r) * 256 + l == a * (256 * p) + (r * 256 + l)
    ensures r * 256 + l < 256 * p
  {
  }

  /** The arithmetic of reading a header of width `k < 5`: a first byte and
      remaining value that make up `n` plus the marker bits are a first byte
      of the announced width whose unmarked bits make up `n`. */
  lemma ReadFirstByte(k: nat, b0: nat, r: nat, n: nat)
    requires 1 <= k <= 4 && HeaderWidth(n) == k
    requires r < Pow256(k - 1)
    requires b0 * Pow256(k - 1) + r == n + Marker(k) * Pow256(k - 1)
    ensures AnnouncedWidth(b0) == k
    ensures (b0 - Marker(k)) * Pow256(k - 1) + r == n
  {
    if k == 1 {
      assert Pow256(0) == 1;
    } else if k == 2 {
      assert Pow256(1) == 0x100;
    } else if k == 3 {
      assert Pow256(2) == 0x1_0000;
    } else {
      assert Pow256(3) == 0x100_0000;
    }
  }

  /** A canonical header's first byte announces its width, and the header
      carries the payload length. */
  lemma CanonicalHeaderReads(n: nat, data: Bytes)
    requires n < 0x1_0000_0000
    requires HeaderWidth(n) <= |data| && data[..HeaderWidth(n)] == CanonicalHeader(n)
    ensures AnnouncedWidth(Octet(data[0])) == HeaderWidth(n)
    ensures HeaderLength(data, HeaderWidth(n)) == n
  {
    var k := HeaderWidth(n);
    var h := CanonicalHeader(n);
    assert data[0] == h[0];
    assert data[1..k] == h[1..];
    if k < 5 {
      BigEndianRoundTrip(n + Marker(k) * Pow256(k - 1), k);
      BigEndianValueFirst(h);
      ReadFirstByte(k, Octet(h[0]), BigEndianValue(h[1..]), n);
    } else {
      assert Pow256(4) == 0x1_0000_0000;
      BigEndianRoundTrip(n, 4);
      assert h[1..] == BigEndian(n, 4);
    }
  }

  /** The decoder reads back every canonical header: the payload follows,
      nothing after it is looked at, and exactly header and payload are
      consumed. */
  lemma DecodeCanonical(w: Bytes, rest: Bytes)
    requires |w| < 0x1_0000_0000
    ensures GetTikword(CanonicalHeader(|w|) + w + rest)
         == Ok(Complete(HeaderWidth(|w|) + |w|, w))
  {
    var n := |w|;
    var data := CanonicalHeader(n) + w + rest;
    var k := HeaderWidth(n);
    assert data[..k] == CanonicalHeader(n);
    CanonicalHeaderReads(n, data);
    assert data[k..k + n] == w;
  }

  /** Decoding is restartable: every proper prefix of an encoded word is
      reported as "not enough data", never as an error or a shorter word. */
  lemma CanonicalPrefixPartial(w: Bytes, j: nat)
    requires |w| < 0x1_0000_0000
    requires j < HeaderWidth(|w|) + |w|
    ensures GetTikword((CanonicalHeader(|w|) + w)[..j]) == Ok(Partial)
  {
    var n := |w|;
    var h := CanonicalHeader(n);
    var k := |h|;
    var p := (h + w)[..j];
    if j > 0 {
      if j >= k {
        assert p[..k] == h;
        CanonicalHeaderReads(n, p);
      } else {
        var full := h + w;
        assert full[..k] == h;
        CanonicalHeaderReads(n, full);
        assert p[0] == full[0];
      }
    }
  }

  /** As written, a buffer holding only the start of a 0xF0 header raises
      instead of waiting for more data, although the complete buffer decodes. */
  lemma ShortF0HeaderRaises()
    ensures GetTikwordAsWritten(CanonicalHeader(0x1000_0000)[..2]) == Err(HeaderPastEnd)
    ensures GetTikword(CanonicalHeader(0x1000_0000)[..2]) == Ok(Partial)
  {
    assert HeaderWidth(0x1000_0000) == 5;
    assert CanonicalHeader(0x1000_0000)[..2][0] == 0xF0;
  }

  /** The length a header carries depends on the header bytes only. */
  lemma HeaderLengthPrefix(data: Bytes, more: Bytes, k: nat)
    requires 1 <= k <= |data| && AnnouncedWidth(Octet(data[0])) == k
    ensures (data + more)[0] == data[0]
    ensures HeaderLength(data + more, k) == HeaderLength(data, k)
  {
    assert (data + more)[1..k] == data[1..k];
  }

  /** A decision already taken is not changed by bytes that arrive later. */
  lemma GetTikwordExtend(data: Bytes, more: Bytes)
    requires GetTikword(data) != Ok(Partial)
    ensures GetTikword(data + more) == GetTikword(data)
  {
    var d := data + more;
    assert d[0] == data[0];
    var i := AnnouncedWidth(Octet(data[0]));
    if i != 0 {
      HeaderLengthPrefix(data, more, i);
      var len := HeaderLength(data, i);
      assert i + len <= |data|;
      assert d[i..i + len] == data[i..i + len];
    }
  }

  /** Round trip of the as-written encoder: below 0x80 bytes its one-byte
      header is the canonical one, so the decoder gets the word back. */
  lemma EncodeDecodeShort(w: Bytes, rest: Bytes)
    requires |w| < 0x80
    ensures ToTikword(w).Ok?
    ensures GetTikword(ToTikword(w).value + rest) == Ok(Complete(1 + |w|, w))
  {
    assert ToTikword(w).value == CanonicalHeader(|w|) + w;
    DecodeCanonical(w, rest);
  }

  /** The encoder's least-significant-first header is misread from 0x81
      bytes on: the decoder takes the header of a 0x81-byte word for a
      0x180-byte length and keeps waiting for data. */
  lemma LsbFirstHeaderMisread(w: Bytes)
    requires |w| == 0x81
    ensures ToTikword(w) == Ok([0x81, 0x80] + w)
    ensures GetTikword(ToTikword(w).value) == Ok(Partial)
  {
    assert ByteOf(0x80) == 0x80 && ByteOf(0x81) == 0x81;
    assert LittleEndian(0x80) == [ByteOf(0x80)] + LittleEndian(0);
    assert LittleEndian(0x8081) == [ByteOf(0x81)] + LittleEndian(0x80);
    assert LittleEndian(0) == [];
    assert LittleEndian(0x8081) == [0x81, 0x80];
    assert ToTikword(w) == Ok(LittleEndian(0x8081) + w);
    var e := [0x81, 0x80] + w;
    assert e[1..2] == [0x80];
    assert BigEndianValue(e[1..2]) == BigEndianValue([]) * 256 + 0x80;
  }
}
