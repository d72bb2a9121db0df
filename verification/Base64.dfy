/** The base64_dec() script function (grammar/rainerscript.c: base64_decode_len, base64_decode,
    doFunct_Base64Dec) against section 4 of RFC 4648. */
module Base64 {

  type byte = b: int | 0 <= b < 256
  type sextet = s: int | 0 <= s < 64

  const WHITESPACE := 64
  const PAD := 65
  const INVALID := 66

  /** base64_table: the value of a character, or one of the three classes. */
  function Table(c: byte): (v: int)
    ensures 0 <= v <= INVALID
  {
    if 65 <= c <= 90 then c - 65             // A-Z
    else if 97 <= c <= 122 then c - 97 + 26  // a-z
    else if 48 <= c <= 57 then c - 48 + 52   // 0-9
    else if c == 43 then 62                  // +
    else if c == 47 then 63                  // /
    else if c == 9 || c == 10 || c == 13 || c == 32 then WHITESPACE
    else if c == 61 then PAD                 // =
    else INVALID
  }

  /** The alphabet of RFC 4648, table 1, in its order; four characters of white space; = is the pad; nothing else. */
  lemma Alphabet(c: char)
    requires c as int < 256
    ensures 'A' <= c <= 'Z' ==> Table(c as int) == c as int - 'A' as int
    ensures 'a' <= c <= 'z' ==> Table(c as int) == c as int - 'a' as int + 26
    ensures '0' <= c <= '9' ==> Table(c as int) == c as int - '0' as int + 52
    ensures c == '+' ==> Table(c as int) == 62
    ensures c == '/' ==> Table(c as int) == 63
    ensures Table(c as int) == WHITESPACE <==> c in " \t\r\n"
    ensures Table(c as int) == PAD <==> c == '='
    ensures Table(c as int) < 64 <==>
              'A' <= c <= 'Z' || 'a' <= c <= 'z' || '0' <= c <= '9' || c == '+' || c == '/'
  {
    var space := " \t\r\n";
    assert space[0] == ' ' && space[1] == '\t' && space[2] == '\r' && space[3] == '\n';
  }

  // ----- what decoding means -----

  /** Index of the first pad character, or the end of the text. */
  function BodyEnd(text: seq<byte>): (k: nat)
    ensures k <= |text|
    ensures forall i :: 0 <= i < k ==> Table(text[i]) != PAD
    ensures k < |text| ==> Table(text[k]) == PAD
  {
    if text == [] || Table(text[0]) == PAD then 0 else 1 + BodyEnd(text[1..])
  }

  /** Only alphabet and whitespace before the first pad character. */
  predicate Valid(text: seq<byte>) {
    forall i :: 0 <= i < BodyEnd(text) ==> Table(text[i]) != INVALID
  }

  /** The values of the alphabet characters of a text. */
  function Values(text: seq<byte>): seq<sextet> {
    if text == [] then []
    else
      var v := Table(text[|text| - 1]);
      var rest := Values(text[..|text| - 1]);
      if v < 64 then rest + [v] else rest
  }

  /** The bytes that four, three or two values stand for. */
  function Byte0(a: sextet, b: sextet): byte { a * 4 + b / 16 }
  function Byte1(b: sextet, c: sextet): byte { b % 16 * 16 + c / 4 }
  function Byte2(c: sextet, d: sextet): byte { c % 4 * 64 + d }

  function Unpack(s: seq<sextet>): (b: seq<byte>)
    ensures |b| == |s| * 3 / 4
  {
    if |s| >= 4 then [Byte0(s[0], s[1]), Byte1(s[1], s[2]), Byte2(s[2], s[3])] + Unpack(s[4..])
    else if |s| == 3 then [Byte0(s[0], s[1]), Byte1(s[1], s[2])]
    else if |s| == 2 then [Byte0(s[0], s[1])]
    else []
  }

  function Decoded(text: seq<byte>): seq<byte> { Unpack(Values(text[..BodyEnd(text)])) }

  lemma {:induction false} UnpackAppend(a: seq<sextet>, b: seq<sextet>)
    requires |a| % 4 == 0
    ensures Unpack(a + b) == Unpack(a) + Unpack(b)
  {
    if a == [] {
      assert a + b == b;
    } else {
      assert (a + b)[4..] == a[4..] + b;
      UnpackAppend(a[4..], b);
    }
  }

  lemma {:induction false} ValuesLength(text: seq<byte>)
    ensures |Values(text)| <= |text|
  {
    if text != [] {
      ValuesLength(text[..|text| - 1]);
    }
  }

  lemma {:induction false} ValuesPrefix(text: seq<byte>, k: nat)
    requires k <= |text|
    ensures |Values(text[..k])| <= |Values(text)|
  {
    if k == |text| {
      assert text[..k] == text;
    } else {
      ValuesPrefix(text[..|text| - 1], k);
      assert text[..|text| - 1][..k] == text[..k];
    }
  }

  // ----- the code -----

  method DecodeLen(text: seq<byte>) returns (n: nat)
    ensures n * 4 <= |text| * 3
    ensures BodyEnd(text) * 3 / 4 <= n
  {
    var len := |text|;
    while len > 0 && Table(text[len - 1]) == PAD
      invariant 0 <= len <= |text|
      invariant BodyEnd(text) <= len
    {
      len := len - 1;
    }
    return len * 3 / 4;
  }

  lemma Shift(q: int, r: int)
    ensures 0 <= r < 4 ==> (q * 4 + r) / 4 == q
    ensures 0 <= r < 16 ==> (q * 16 + r) / 16 == q
    ensures 0 <= r < 256 ==> (q * 256 + r) / 256 == q && (q * 256 + r) % 256 == r
    ensures 0 <= r < 1024 ==> (q * 1024 + r) / 1024 == q
    ensures 0 <= r < 65536 ==> (q * 65536 + r) / 65536 == q
  {}

  lemma ThreeBytes(x: int, y: int, z: int)
    requires 0 <= x < 256 && 0 <= y < 256 && 0 <= z < 256
    ensures var v := (x * 256 + y) * 256 + z; v / 65536 % 256 == x && v / 256 % 256 == y && v % 256 == z
  {
    var v := (x * 256 + y) * 256 + z;
    assert v == x * 65536 + (y * 256 + z);
    Shift(x, y * 256 + z);
    Shift(x * 256 + y, z);
    Shift(x, y);
  }

  lemma TwoBytes(x: int, y: int, low: int)
    requires 0 <= x < 256 && 0 <= y < 256 && 0 <= low < 4
    ensures var v := (x * 256 + y) * 4 + low; v / 1024 % 256 == x && v / 4 % 256 == y
  {
    var v := (x * 256 + y) * 4 + low;
    assert v == x * 1024 + (y * 4 + low);
    Shift(x, y * 4 + low);
    Shift(x * 256 + y, low);
    Shift(x, y);
  }

  lemma Halves(b: int, c: int)
    ensures b == b / 16 * 16 + b % 16 && c == c / 4 * 4 + c % 4
  {}

  /** The bytes taken from the shift register after four, three and two values. */
  lemma Register4(a: sextet, b: sextet, c: sextet, d: sextet)
    ensures var v := ((a as int * 64 + b) * 64 + c) * 64 + d;
            v / 65536 % 256 == Byte0(a, b) && v / 256 % 256 == Byte1(b, c) && v % 256 == Byte2(c, d)
  {
    var x, y, z: int := Byte0(a, b), Byte1(b, c), Byte2(c, d);
    Halves(b, c);
    assert ((a as int * 64 + b) * 64 + c) * 64 + d == (x * 256 + y) * 256 + z;
    ThreeBytes(x, y, z);
  }

  lemma Register3(a: sextet, b: sextet, c: sextet)
    ensures var v := (a as int * 64 + b) * 64 + c; v / 1024 % 256 == Byte0(a, b) && v / 4 % 256 == Byte1(b, c)
  {
    var x, y: int := Byte0(a, b), Byte1(b, c);
    Halves(b, c);
    assert (a as int * 64 + b) * 64 + c == (x * 256 + y) * 4 + c % 4;
    TwoBytes(x, y, c % 4);
  }

  lemma Register2(a: sextet, b: sextet)
    ensures (a as int * 64 + b) / 16 % 256 == Byte0(a, b)
  {
    var x: int := a * 4 + b / 16;
    assert a as int * 64 + b == x * 16 + b % 16;
    Shift(x, b % 16);
  }

  /** What the shift register holds when the last iter values are not written yet. */
  predicate Holds(s: seq<sextet>, iter: int, buf: int)
    requires 0 <= iter <= 3 && iter <= |s|
  {
    var n := |s|;
    if iter == 0 then buf == 0
    else if iter == 1 then buf == s[n - 1]
    else if iter == 2 then buf == s[n - 2] as int * 64 + s[n - 1]
    else buf == (s[n - 3] as int * 64 + s[n - 2]) * 64 + s[n - 1]
  }

  /** The state of the decoding loop after the values s: complete groups are written, the rest is in the register. */
  ghost predicate Progress(s: seq<sextet>, iter: int, buf: int, written: seq<byte>) {
    && 0 <= iter <= 3 && iter <= |s| && (|s| - iter) % 4 == 0
    && Holds(s, iter, buf)
    && written == Unpack(s[..|s| - iter])
  }

  lemma {:induction false} ProgressShort(s: seq<sextet>, v: sextet, iter: int, buf: int, written: seq<byte>)
    requires Progress(s, iter, buf, written) && iter < 3
    ensures Progress(s + [v], iter + 1, buf * 64 + v, written)
  {
    assert (s + [v])[..|s| - iter] == s[..|s| - iter];
  }

  lemma UnpackGroup(a: sextet, b: sextet, c: sextet, d: sextet)
    ensures Unpack([a, b, c, d]) == [Byte0(a, b), Byte1(b, c), Byte2(c, d)]
  {
    assert [a, b, c, d][4..] == [];
  }

  lemma {:induction false} ProgressFull(s: seq<sextet>, v: sextet, buf: int, written: seq<byte>)
    requires Progress(s, 3, buf, written)
    ensures Progress(s + [v], 0, 0, written + Emitted(buf * 64 + v))
  {
    var k := |s| - 3;
    var t := s + [v];
    var group := [s[k], s[k + 1], s[k + 2], v];
    assert t == s[..k] + group;
    assert t[..|t|] == t;
    UnpackAppend(s[..k], group);
    EmittedGroup(s[k], s[k + 1], s[k + 2], v);
    assert buf == (s[k] as int * 64 + s[k + 1]) * 64 + s[k + 2];
    assert written + Emitted(buf * 64 + v) == Unpack(t);
    Multiple4(k);
  }

  lemma Multiple4(k: int)
    ensures k % 4 == 0 ==> (k + 4) % 4 == 0
  {}

  /** The three bytes a full register yields. */
  function Emitted(v: int): (r: seq<byte>) { [v / 65536 % 256, v / 256 % 256, v % 256] }

  lemma EmittedGroup(a: sextet, b: sextet, c: sextet, d: sextet)
    ensures Emitted(((a as int * 64 + b) * 64 + c) * 64 + d) == Unpack([a, b, c, d])
  {
    Register4(a, b, c, d);
    UnpackGroup(a, b, c, d);
  }

  /** The bytes a partly filled register yields at the end of the data. */
  function Rest(iter: int, buf: int): (r: seq<byte>) {
    if iter == 3 then [buf / 1024 % 256, buf / 4 % 256] else if iter == 2 then [buf / 16 % 256] else []
  }

  lemma RestIs(t: seq<sextet>, buf: int)
    requires |t| <= 3 && Holds(t, |t|, buf)
    ensures Unpack(t) == Rest(|t|, buf)
  {
    if |t| == 3 {
      Register3(t[0], t[1], t[2]);
    } else if |t| == 2 {
      Register2(t[0], t[1]);
    }
  }

  lemma {:induction false} ProgressEnd(s: seq<sextet>, iter: int, buf: int, written: seq<byte>)
    requires Progress(s, iter, buf, written)
    ensures Unpack(s) == written + Rest(iter, buf)
  {
    var k := |s| - iter;
    assert s[..k] + s[k..] == s;
    UnpackAppend(s[..k], s[k..]);
    RestIs(s[k..], buf);
  }

  /** The body of the loop for an alphabet character. */
  method Digit(c: sextet, out: array<byte>, outLen: nat, iter: int, buf: int, len: nat, ghost s: seq<sextet>)
    returns (ok: bool, iter': int, buf': int, len': nat)
    requires len <= outLen <= out.Length && Progress(s, iter, buf, out[..len])
    modifies out
    ensures ok ==> len' <= outLen && Progress(s + [c], iter', buf', out[..len'])
    ensures !ok ==> (|s| + 1) * 3 / 4 > outLen
  {
    buf' := buf * 64 + c;
    iter' := iter + 1;
    len' := len;
    if iter' == 4 {
      ProgressFull(s, c, buf, out[..len]);
      if len + 3 > outLen {
        return false, iter', buf', len;
      }
      out[len], out[len + 1], out[len + 2] := buf' / 65536 % 256, buf' / 256 % 256, buf' % 256;
      assert out[..len + 3] == old(out[..len]) + Emitted(buf');
      len' := len + 3;
      buf', iter' := 0, 0;
    } else {
      ProgressShort(s, c, iter, buf, out[..len]);
    }
    ok := true;
  }

  /** The loop body for a character that is neither invalid nor a pad character. */
  method Consume(text: seq<byte>, k: nat, out: array<byte>, outLen: nat, iter: int, buf: int, len: nat)
    returns (ok: bool, iter': int, buf': int, len': nat)
    requires k < |text| && Table(text[k]) <= WHITESPACE
    requires len <= outLen <= out.Length && Progress(Values(text[..k]), iter, buf, out[..len])
    modifies out
    ensures ok ==> len' <= outLen && Progress(Values(text[..k + 1]), iter', buf', out[..len'])
    ensures !ok ==> |Values(text[..k + 1])| * 3 / 4 > outLen
  {
    var c := Table(text[k]);
    assert text[..k + 1][..k] == text[..k];
    ok, iter', buf', len' := true, iter, buf, len;
    if c != WHITESPACE {
      ok, iter', buf', len' := Digit(c, out, outLen, iter, buf, len, Values(text[..k]));
    }
  }

  /** base64_decode. The buffer offers outLen bytes. */
  method Decode(text: seq<byte>, out: array<byte>, outLen: nat) returns (err: bool, len: nat)
    requires outLen <= out.Length
    modifies out
    ensures err <==> !Valid(text) || |Decoded(text)| > outLen
    ensures !err ==> len == |Decoded(text)| && out[..len] == Decoded(text)
  {
    var iter, buf := 0, 0;
    err, len := false, 0;
    var k := 0;
    ghost var stop := BodyEnd(text);
    while k < |text|
      invariant 0 <= k <= stop && !err
      invariant forall i :: 0 <= i < k ==> Table(text[i]) != INVALID
      invariant len <= outLen && Progress(Values(text[..k]), iter, buf, out[..len])
    {
      var c := Table(text[k]);
      if c == INVALID {
        err := true;
        break;
      } else if c == PAD {
        break;
      }
      var ok;
      ok, iter, buf, len := Consume(text, k, out, outLen, iter, buf, len);
      k := k + 1;
      if !ok {
        TooLong(text, k);
        err := true;
        break;
      }
    }
    if !err {
      err, len := Finish(out, outLen, iter, buf, len, Values(text[..k]));
    }
  }

  /** The end of the data. */
  method Finish(out: array<byte>, outLen: nat, iter: int, buf: int, len: nat, ghost s: seq<sextet>)
    returns (err: bool, len': nat)
    requires len <= outLen <= out.Length && Progress(s, iter, buf, out[..len])
    modifies out
    ensures len' == |Unpack(s)| && (err <==> len' > outLen) && (!err ==> out[..len'] == Unpack(s))
  {
    ProgressEnd(s, iter, buf, out[..len]);
    err, len' := Flush(out, outLen, iter, buf, len);
  }

  /** What is left in the register at the end of the data. */
  method Flush(out: array<byte>, outLen: nat, iter: int, buf: int, len: nat) returns (err: bool, len': nat)
    requires len <= outLen <= out.Length
    modifies out
    ensures len' == len + |Rest(iter, buf)| && (err <==> len' > outLen)
    ensures !err ==> out[..len'] == old(out[..len]) + Rest(iter, buf)
  {
    len' := len;
    if iter == 3 {
      len' := len' + 2;
      if len' > outLen { return true, len'; }
      out[len], out[len + 1] := buf / 1024 % 256, buf / 4 % 256;
    } else if iter == 2 {
      len' := len' + 1;
      if len' > outLen { return true, len'; }
      out[len] := buf / 16 % 256;
    }
    err := false;
  }

  lemma TooLong(text: seq<byte>, k: nat)
    requires k <= BodyEnd(text)
    ensures |Values(text[..k])| * 3 / 4 <= |Decoded(text)|
  {
    var body := text[..BodyEnd(text)];
    ValuesPrefix(body, k);
    assert body[..k] == text[..k];
  }

  /** doFunct_Base64Dec: the predicted length is always enough, so decoding fails exactly on invalid text. */
  method Base64Dec(text: seq<byte>) returns (res: seq<byte>)
    ensures res == if Valid(text) then Decoded(text) else []
  {
    var len := DecodeLen(text);
    ValuesLength(text[..BodyEnd(text)]);
    assert |Decoded(text)| <= len;
    if len == 0 {
      return [];
    }
    var buffer := new byte[len + 1];
    var err, n := Decode(text, buffer, len);
    if err {
      return [];
    }
    res := buffer[..n];
  }

  // ----- RFC 4648 -----

  function Letter(s: sextet): (c: byte)
    ensures Table(c) == s
  {
    if s < 26 then s + 65 else if s < 52 then s - 26 + 97 else if s < 62 then s - 52 + 48 else if s == 62 then 43 else 47
  }

  /** The encoding of section 4 of RFC 4648. */
  function Encode(b: seq<byte>): seq<byte> {
    if |b| >= 3 then
      [Letter(b[0] / 4), Letter(b[0] % 4 * 16 + b[1] / 16), Letter(b[1] % 16 * 4 + b[2] / 64), Letter(b[2] % 64)] + Encode(b[3..])
    else if |b| == 2 then [Letter(b[0] / 4), Letter(b[0] % 4 * 16 + b[1] / 16), Letter(b[1] % 16 * 4), 61]
    else if |b| == 1 then [Letter(b[0] / 4), Letter(b[0] % 4 * 16), 61, 61]
    else []
  }

  lemma {:induction false} ValuesAppend(a: seq<byte>, b: seq<byte>)
    ensures Values(a + b) == Values(a) + Values(b)
  {
    if b == [] {
      assert a + b == a;
    } else {
      assert (a + b)[..|a + b| - 1] == a + b[..|b| - 1];
      ValuesAppend(a, b[..|b| - 1]);
    }
  }

  lemma {:induction false} ValuesSnoc(t: seq<byte>, c: byte)
    requires Table(c) < 64
    ensures Values(t + [c]) == Values(t) + [Table(c)]
  {
    assert (t + [c])[..|t|] == t;
  }

  lemma Values4(a: sextet, b: sextet, c: sextet, d: sextet)
    ensures Values([Letter(a), Letter(b)]) == [a, b]
    ensures Values([Letter(a), Letter(b), Letter(c)]) == [a, b, c]
    ensures Values([Letter(a), Letter(b), Letter(c), Letter(d)]) == [a, b, c, d]
  {
    ValuesSnoc([], Letter(a));
    assert [] + [Letter(a)] == [Letter(a)];
    ValuesSnoc([Letter(a)], Letter(b));
    assert [Letter(a)] + [Letter(b)] == [Letter(a), Letter(b)];
    ValuesSnoc([Letter(a), Letter(b)], Letter(c));
    assert [Letter(a), Letter(b)] + [Letter(c)] == [Letter(a), Letter(b), Letter(c)];
    ValuesSnoc([Letter(a), Letter(b), Letter(c)], Letter(d));
    assert [Letter(a), Letter(b), Letter(c)] + [Letter(d)] == [Letter(a), Letter(b), Letter(c), Letter(d)];
  }

  /** A group of letters in front of a text. */
  lemma {:induction false} GroupInFront(group: seq<byte>, s: seq<sextet>, rest: seq<byte>)
    requires (forall i :: 0 <= i < |group| ==> Table(group[i]) < PAD) && Values(group) == s
    ensures Valid(group + rest) <==> Valid(rest)
    ensures |s| % 4 == 0 ==> Decoded(group + rest) == Unpack(s) + Decoded(rest)
    ensures BodyEnd(rest) == 0 ==> Decoded(group + rest) == Unpack(s)
  {
    BodySplit(group, rest);
    var body := rest[..BodyEnd(rest)];
    if |s| % 4 == 0 {
      UnpackAppend(s, Values(body));
    }
    if BodyEnd(rest) == 0 {
      assert s + Values(body) == s;
    }
  }

  /** Splitting three bytes into four values and putting them together again. */
  lemma Resplit(x: byte, y: byte, z: byte)
    ensures Byte0(x / 4, x % 4 * 16 + y / 16) == x
    ensures Byte1(x % 4 * 16 + y / 16, y % 16 * 4 + z / 64) == y
    ensures Byte2(y % 16 * 4 + z / 64, z % 64) == z
  {}

  /** Four letters stand for three bytes in front of the rest. */
  lemma {:induction false} LettersInFront(s0: sextet, s1: sextet, s2: sextet, s3: sextet, rest: seq<byte>)
    ensures var text := [Letter(s0), Letter(s1), Letter(s2), Letter(s3)] + rest;
            && (Valid(text) <==> Valid(rest))
            && Decoded(text) == [Byte0(s0, s1), Byte1(s1, s2), Byte2(s2, s3)] + Decoded(rest)
  {
    Values4(s0, s1, s2, s3);
    GroupInFront([Letter(s0), Letter(s1), Letter(s2), Letter(s3)], [s0, s1, s2, s3], rest);
    UnpackGroup(s0, s1, s2, s3);
  }

  /** Three bytes in front of a text: the letters that encode them decode to them. */
  lemma {:induction false} BytesInFront(x: byte, y: byte, z: byte, rest: seq<byte>)
    ensures var text := [Letter(x / 4), Letter(x % 4 * 16 + y / 16), Letter(y % 16 * 4 + z / 64), Letter(z % 64)] + rest;
            (Valid(text) <==> Valid(rest)) && Decoded(text) == [x, y, z] + Decoded(rest)
  {
    Resplit(x, y, z);
    LettersInFront(x / 4, x % 4 * 16 + y / 16, y % 16 * 4 + z / 64, z % 64, rest);
  }

  lemma EncodePair(x: byte, y: byte)
    ensures Valid(Encode([x, y])) && Decoded(Encode([x, y])) == [x, y]
  {
    var s0, s1, s2 := x / 4, x % 4 * 16 + y / 16, y % 16 * 4;
    Values4(s0, s1, s2, 0);
    GroupInFront([Letter(s0), Letter(s1), Letter(s2)], [s0, s1, s2], [61]);
    assert Encode([x, y]) == [Letter(s0), Letter(s1), Letter(s2)] + [61];
    UnpackPair(x, y);
  }

  lemma UnpackPair(x: byte, y: byte)
    ensures Unpack([x / 4, x % 4 * 16 + y / 16, y % 16 * 4]) == [x, y]
  {
    Resplit(x, y, 0);
  }

  lemma EncodeOne(x: byte)
    ensures Valid(Encode([x])) && Decoded(Encode([x])) == [x]
  {
    var s0, s1 := x / 4, x % 4 * 16;
    var group := [Letter(s0), Letter(s1)];
    Values4(s0, s1, 0, 0);
    GroupInFront(group, [s0, s1], [61, 61]);
    assert Encode([x]) == group + [61, 61];
    assert Unpack([s0, s1]) == [Byte0(s0, s1)];
  }

  /** Decoding the RFC 4648 encoding of any byte string returns the byte string. */
  lemma {:induction false} DecodeEncode(b: seq<byte>)
    ensures Valid(Encode(b)) && Decoded(Encode(b)) == b
  {
    if |b| >= 3 {
      DecodeEncode(b[3..]);
      BytesInFront(b[0], b[1], b[2], Encode(b[3..]));
      assert b == [b[0], b[1], b[2]] + b[3..];
    } else if |b| == 2 {
      EncodePair(b[0], b[1]);
      assert b == [b[0], b[1]];
    } else if |b| == 1 {
      EncodeOne(b[0]);
      assert b == [b[0]];
    }
  }

  /** Whitespace may be put anywhere into the data. */
  lemma {:induction false} WhitespaceIsIgnored(a: seq<byte>, w: byte, b: seq<byte>)
    requires Table(w) == WHITESPACE && BodyEnd(a) == |a|
    ensures Valid(a + ([w] + b)) <==> Valid(a + b)
    ensures Decoded(a + ([w] + b)) == Decoded(a + b)
  {
    BodySplit(a, b);
    BodySplit(a, [w] + b);
    BodySplit([w], b);
    var body := b[..BodyEnd(b)];
    assert ([w] + b)[..BodyEnd([w] + b)] == [w] + body;
    ValuesAppend([w], body);
    assert Values([w]) == [];
    assert Values([w] + body) == Values(body);
  }

  /** What follows a pad character does not matter, valid or not. */
  lemma TextAfterPadIsIgnored(a: seq<byte>, b: seq<byte>)
    ensures Valid(a + [61] + b) <==> Valid(a)
    ensures Decoded(a + [61] + b) == Decoded(a)
  {
    var text := a + [61] + b;
    assert forall i :: 0 <= i < |a| ==> text[i] == a[i];
    assert text[|a|] == 61;
    assert BodyEnd(text) == BodyEnd(a);
    assert text[..BodyEnd(a)] == a[..BodyEnd(a)];
  }

  /** A prefix without pad character contributes its values. */
  lemma {:induction false} BodySplit(a: seq<byte>, b: seq<byte>)
    requires BodyEnd(a) == |a|
    ensures BodyEnd(a + b) == |a| + BodyEnd(b)
    ensures Valid(a + b) <==> Valid(a) && Valid(b)
    ensures Decoded(a + b) == Unpack(Values(a) + Values(b[..BodyEnd(b)]))
  {
    assert forall i :: 0 <= i < |b| ==> (a + b)[|a| + i] == b[i];
    assert BodyEnd(a + b) >= |a|;
    assert BodyEnd(a + b) == |a| + BodyEnd(b);
    if Valid(a + b) {
      forall i | 0 <= i < BodyEnd(b) ensures Table(b[i]) != INVALID { assert b[i] == (a + b)[|a| + i]; }
      forall i | 0 <= i < BodyEnd(a) ensures Table(a[i]) != INVALID { assert a[i] == (a + b)[i]; }
    }
    assert (a + b)[..BodyEnd(a + b)] == a + b[..BodyEnd(b)];
    ValuesAppend(a, b[..BodyEnd(b)]);
  }
}
