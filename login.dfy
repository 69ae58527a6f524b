/** The decisions of `MTik::Connection#login` (lib/mtik/connection.rb:91-147):
    `hex2bin`, the shapes of the replies that make a login succeed or fail,
    the arguments of the challenge response, and where the RouterOS version
    comes from. The exchange of requests itself is
    `Connections.Connection.Login`. */
module Logins {

  import opened Bytes
  import opened Wrappers
  import opened Errors
  import opened Sentences
  import opened Replies
  import opened Requests

  const LoginCommand: Bytes := FromAscii("/login")
  const ResourceCommand: Bytes := FromAscii("/system/resource/getall")
  const RetKey: Bytes := FromAscii("ret")
  const VersionKey: Bytes := FromAscii("version")
  const NameArgPrefix: Bytes := FromAscii("=name=")
  const PasswordArgPrefix: Bytes := FromAscii("=password=")
  const ResponseArgPrefix: Bytes := FromAscii("=response=00")
  const UnknownLoginError: Bytes := FromAscii("Unknown error.")

  // ---------------------------------------------------------------------
  // hex2bin (connection.rb:91-95)

  /** Ruby's `isalpha` on a byte. */
  predicate IsAlpha(c: byte)
  {
    (0x41 <= c <= 0x5a) || (0x61 <= c <= 0x7a)
  }

  /** The value `pack('H*')` takes from one character: a letter counts
      nine more than its low four bits, any other byte its low four bits. */
  function Nibble(c: byte): (v: nat)
    ensures v < 16
  {
    if IsAlpha(c) then (c % 16 + 9) % 16 else c % 16
  }

  /** `[str].pack('H*')` for a string of even length: two characters to a
      byte, the high nibble first. */
  function PackHex(s: Bytes): (b: Bytes)
    requires |s| % 2 == 0
    ensures |b| == |s| / 2
  {
    if s == [] then [] else [ByteOf(Nibble(s[0]) * 16 + Nibble(s[1]))] + PackHex(s[2..])
  }

  /** `hex2bin`: a string of odd length is read with a '0' in front. */
  function Hex2Bin(s: Bytes): (b: Bytes)
    ensures |b| == (|s| + 1) / 2
  {
    if |s| % 2 == 0 then PackHex(s) else PackHex([0x30] + s)
  }

  /** The lower-case hexadecimal digit of a value below 16, as
      `Digest::MD5.hexdigest` writes it. */
  function HexDigit(d: nat): (c: byte)
    requires d < 16
    ensures Nibble(c) == d
  {
    if d < 10 then ByteOf(0x30 + d) else ByteOf(0x61 + d - 10)
  }

  /** Lower-case hexadecimal, two digits per byte. */
  function ToHex(b: Bytes): (s: Bytes)
    ensures |s| == 2 * |b|
  {
    if b == [] then [] else [HexDigit(Octet(b[0]) / 16), HexDigit(Octet(b[0]) % 16)] + ToHex(b[1..])
  }

  /** The two digits of one byte read back as that byte. */
  lemma HexPair(x: byte)
    ensures PackHex([HexDigit(Octet(x) / 16), HexDigit(Octet(x) % 16)]) == [x]
  {
    var p := [HexDigit(Octet(x) / 16), HexDigit(Octet(x) % 16)];
    assert p[2..] == [];
    assert Nibble(p[0]) * 16 + Nibble(p[1]) == Octet(x);
  }

  lemma {:induction false} PackHexAppend(a: Bytes, b: Bytes)
    requires |a| % 2 == 0 && |b| % 2 == 0
    ensures PackHex(a + b) == PackHex(a) + PackHex(b)
    decreases |a|
  {
    if a != [] {
      assert (a + b)[2..] == a[2..] + b;
      PackHexAppend(a[2..], b);
    } else {
      assert a + b == b;
    }
  }

  lemma {:induction false} PackHexToHex(b: Bytes)
    ensures PackHex(ToHex(b)) == b
  {
    if b != [] {
      var p := [HexDigit(Octet(b[0]) / 16), HexDigit(Octet(b[0]) % 16)];
      var q := ToHex(b[1..]);
      assert ToHex(b) == p + q;
      PackHexAppend(p, q);
      HexPair(b[0]);
      PackHexToHex(b[1..]);
      calc {
        PackHex(ToHex(b));
        PackHex(p) + PackHex(q);
        [b[0]] + b[1..];
        b;
      }
    }
  }

  /** `hex2bin` undoes hexadecimal encoding. */
  lemma Hex2BinToHex(b: Bytes)
    ensures Hex2Bin(ToHex(b)) == b
  {
    PackHexToHex(b);
  }

  /** The same letter in the other case (bit 0x20 flipped). */
  function OtherCase(c: byte): byte
    requires IsAlpha(c)
  {
    if c < 0x60 then c + 0x20 else c - 0x20
  }

  /** A letter and its other case stand for the same nibble. */
  lemma NibbleIgnoresCase(c: byte)
    requires IsAlpha(c)
    ensures IsAlpha(OtherCase(c)) && Nibble(OtherCase(c)) == Nibble(c)
  {
  }

  /** With an odd number of digits, the first digit fills the low half of
      the first byte. */
  lemma Hex2BinOdd(s: Bytes)
    requires |s| % 2 == 1
    ensures Hex2Bin(s)[0] == ByteOf(Nibble(s[0]))
    ensures Hex2Bin(s)[1..] == Hex2Bin(s[1..])
  {
    var t := [0x30 as byte] + s;
    assert t[2..] == s[1..];
    assert Nibble(t[0]) == 0;
  }

  // ---------------------------------------------------------------------
  // Reply shapes

  /** The reply that means "logged in": one sentence of exactly two keys,
      one of them `!done` (connection.rb:109, 134). */
  predicate LoggedIn(reply: Reply)
  {
    |reply| == 1 && |reply[0]| == 2 && HasKey(reply[0], DoneKey)
  }

  /** The arguments of the first `/login` on the direct path: one array of
      the name and the password words (connection.rb:108). */
  function DirectLoginArgs(user: Bytes, pass: Bytes): (args: seq<Arg>)
    ensures Flatten(args) == [Word(NameArgPrefix + user), Word(PasswordArgPrefix + pass)]
  {
    var ws := [Word(NameArgPrefix + user), Word(PasswordArgPrefix + pass)];
    assert Flatten(ws[1..][1..]) == [];
    assert Flatten(ws[1..]) == [ws[1]];
    assert Flatten(ws) == ws;
    assert Flatten([Nested(ws)][1..]) == [];
    [Nested([Word(NameArgPrefix + user), Word(PasswordArgPrefix + pass)])]
  }

  /** The challenge of the challenge-response login (connection.rb:119-124):
      the reply must be one sentence of exactly three keys with `ret`
      among them, and the challenge is `hex2bin` of the `ret` value. */
  function ChallengeOf(reply: Reply): (r: Result<Bytes>)
    ensures r.Ok? <==> |reply| == 1 && |reply[0]| == 3 && HasKey(reply[0], RetKey)
                       && Get(reply[0], RetKey).Some?
    ensures r.Ok? ==> r.value == Hex2Bin(Get(reply[0], RetKey).value)
    ensures r.Err? ==> r.error == (if |reply| == 1 && |reply[0]| == 3 && HasKey(reply[0], RetKey)
                                   then NilString else LoginUnexpectedReply)
  {
    if |reply| != 1 || |reply[0]| != 3 || !HasKey(reply[0], RetKey) then Err(LoginUnexpectedReply)
    else match Get(reply[0], RetKey)
      case None => Err(NilString)
      case Some(h) => Ok(Hex2Bin(h))
  }

  /** The arguments of the second `/login` (connection.rb:127-130): the name,
      and `00` followed by the hexadecimal MD5 digest of a zero byte, the
      password and the challenge. `md5hex` is `Digest::MD5.hexdigest`. */
  function ResponseArgs(user: Bytes, pass: Bytes, challenge: Bytes, md5hex: Bytes -> Bytes): (args: seq<Arg>)
    ensures Flatten(args) == args
    ensures |args| == 2 && args[0] == Word(NameArgPrefix + user)
    ensures args[1].Word? && StartsWith(args[1].word, ResponseArgPrefix)
    ensures args[1].word[|ResponseArgPrefix|..] == md5hex([0x00] + pass + challenge)
  {
    var response := ResponseArgPrefix + md5hex([0x00] + pass + challenge);
    assert response[..|ResponseArgPrefix|] == ResponseArgPrefix;
    assert response[|ResponseArgPrefix|..] == md5hex([0x00] + pass + challenge);
    var args := [Word(NameArgPrefix + user), Word(response)];
    assert Flatten(args[1..][1..]) == [];
    assert Flatten(args[1..]) == [args[1]];
    args
  }

  /** How the reply to the challenge response ends the login. */
  datatype Verdict =
    | Accepted
    | Refused(error: Error)   // raised with the socket left open
    | Dropped                 // the plain socket is closed, then LoginUnknownResponse

  /** connection.rb:131-138: a `!trap` in the first sentence refuses with its
      message (or "Unknown error."); otherwise anything but the logged-in
      shape drops the connection. An empty reply has no first sentence to
      look at. */
  function ResponseVerdict(reply: Reply): (v: Verdict)
    ensures v == Accepted <==> LoggedIn(reply) && !HasKey(reply[0], TrapKey)
    ensures v == Dropped <==> reply != [] && !HasKey(reply[0], TrapKey) && !LoggedIn(reply)
    ensures v.Refused? && reply != [] ==> HasKey(reply[0], TrapKey)
    ensures v.Refused? && reply != [] && !HasKey(reply[0], MessageKey) ==>
              v.error == LoginRejected(UnknownLoginError)
    ensures v.Refused? && reply != [] && HasKey(reply[0], MessageKey) && Get(reply[0], MessageKey).Some? ==>
              v.error == LoginRejected(Get(reply[0], MessageKey).value)
  {
    if reply == [] then Refused(NoReplySentence)
    else if HasKey(reply[0], TrapKey) then
      if !HasKey(reply[0], MessageKey) then Refused(LoginRejected(UnknownLoginError))
      else match Get(reply[0], MessageKey)
        case Some(m) => Refused(LoginRejected(m))
        case None => Refused(NilString)
    else if LoggedIn(reply) then Accepted
    else Dropped
  }

  /** connection.rb:143-146: the version is taken from the first sentence
      when it is a `!re` sentence with a `version` value; otherwise the
      version stays as it was. */
  function OsVersionOf(reply: Reply, current: Option<Bytes>): (r: Result<Option<Bytes>>)
    ensures r.Err? <==> reply == []
    ensures r.Err? ==> r.error == NoReplySentence
    ensures r.Ok? && r.value != current ==>
              HasKey(reply[0], ReKey) && r.value == Get(reply[0], VersionKey) && r.value.Some?
    ensures r.Ok? && HasKey(reply[0], ReKey) && Get(reply[0], VersionKey).Some? ==>
              r.value == Get(reply[0], VersionKey)
  {
    if reply == [] then Err(NoReplySentence)
    else if HasKey(reply[0], ReKey) && Get(reply[0], VersionKey).Some? then Ok(Get(reply[0], VersionKey))
    else Ok(current)
  }
}
