/** Base58 (src/base58.cpp): bytes and text, converted by in-place arithmetic on a digit buffer. */
module Base58 {
  import opened Common
  import opened Radix

  type Byte = x: nat | x < 256

  // ---------------------------------------------------------------- characters

  /** The alphabet: all digits and letters except '0', 'I', 'O' and 'l', in six runs. */
  function ToChar(d: nat): char
    requires d < 58
  {
    if d < 9 then ('1' as int + d) as char
    else if d < 17 then ('A' as int + d - 9) as char
    else if d < 22 then ('J' as int + d - 17) as char
    else if d < 33 then ('P' as int + d - 22) as char
    else if d < 44 then ('a' as int + d - 33) as char
    else ('m' as int + d - 44) as char
  }

  /** The position of a character in the alphabet. */
  function FromChar(c: char): Option<nat> {
    if '1' <= c <= '9' then Some(c as int - '1' as int)
    else if 'A' <= c <= 'H' then Some(c as int - 'A' as int + 9)
    else if 'J' <= c <= 'N' then Some(c as int - 'J' as int + 17)
    else if 'P' <= c <= 'Z' then Some(c as int - 'P' as int + 22)
    else if 'a' <= c <= 'k' then Some(c as int - 'a' as int + 33)
    else if 'm' <= c <= 'z' then Some(c as int - 'm' as int + 44)
    else None
  }

  predicate IsSpace(c: char) {
    c == ' ' || '\t' <= c <= '\r'
  }

  /** The six characters that are skipped before and after. */
  lemma SpaceExact(c: char)
    ensures IsSpace(c) <==> c as int in {9, 10, 11, 12, 13, 32}
  {
  }

  lemma CharInverse(d: nat)
    requires d < 58
    ensures FromChar(ToChar(d)) == Some(d) && (ToChar(d) == '1' <==> d == 0) && !IsSpace(ToChar(d))
  {
  }

  lemma DigitInverse(c: char)
    requires FromChar(c).Some?
    ensures FromChar(c).value < 58 && ToChar(FromChar(c).value) == c && (c == '1' <==> FromChar(c).value == 0)
    ensures !IsSpace(c)
  {
  }

  predicate IsAlphanumeric(c: char) {
    '0' <= c <= '9' || 'A' <= c <= 'Z' || 'a' <= c <= 'z'
  }

  /** The alphabet is the digits and letters without the four that look like others, and no more. */
  lemma AlphabetExact(c: char)
    ensures FromChar(c).Some? <==> IsAlphanumeric(c) && c !in "0IOl"
    ensures FromChar(c).Some? <==> exists d :: 0 <= d < 58 && ToChar(d) == c
  {
    if FromChar(c).Some? {
      DigitInverse(c);
      assert ToChar(FromChar(c).value) == c;
    } else if d :| 0 <= d < 58 && ToChar(d) == c {
      CharInverse(d);
    }
  }

  /** It is in the order of the characters, so that its set of characters says which stands for which digit. */
  lemma AlphabetOrdered(d: nat, e: nat)
    requires d < e < 58
    ensures ToChar(d) < ToChar(e)
  {
  }

  // ---------------------------------------------------------------- buffer sizes

  lemma Room58(n: nat)
    ensures Pow(256, n) <= Pow(58, n * 138 / 100 + 1)
  {
    Small256();
    DigitsFit(256, 58, 8, 11, n, n * 138 / 100 + 1);
  }

  lemma Small256()
    ensures Pow(256, 8) <= Pow(58, 11)
  {
  }

  lemma Room256(n: nat)
    ensures Pow(58, n) <= Pow(256, n * 733 / 1000 + 1)
  {
    Small58();
    DigitsFit(58, 256, 71, 52, n, n * 733 / 1000 + 1);
  }

  lemma Small58()
    ensures Pow(58, 71) <= Pow(256, 52)
  {
    hide Pow;
    Pow58();
    PowAdd(58, 8, 8);
    assert Pow(58, 16) == 0x34fde3761da26b26e1410000;
    PowAdd(58, 16, 16);
    assert Pow(58, 32) == 0xaf820335d9b3d9cf58b911d87035677fb7f528100000000;
    PowAdd(58, 32, 32);
    PowAdd(58, 64, 7);
    Pow256();
    PowAdd(256, 16, 16);
    PowAdd(256, 32, 16);
    PowAdd(256, 48, 4);
  }

  lemma Pow58()
    ensures Pow(58, 7) == 0x202161caa80 && Pow(58, 8) == 0x7479027ea100
  {
  }

  lemma Pow256()
    ensures Pow(256, 4) == 0x100000000 && Pow(256, 16) == 0x100000000000000000000000000000000
  {
  }

  // ---------------------------------------------------------------- converting a digit list

  /** Converts a list of digits to another base in a buffer of the given size: the result has no leading zero. */
  method Convert(input: seq<nat>, m: nat, b: nat, size: nat) returns (r: seq<nat>)
    requires m >= 1 && b >= 2 && Digits(input, m) && Pow(m, |input|) <= Pow(b, size)
    ensures Minimal(r, b) && Val(r, b) == Val(input, m)
  {
    hide Val, Pow;
    var buffer := new nat[size](_ => 0);
    var length := 0;
    AllZero(buffer[..], b);
    EmptyVal(m);
    assert input[..0] == [];
    for k := 0 to |input|
      invariant Digits(buffer[..], b) && ZeroAbove(buffer[..], length) && Val(buffer[..], b) == Val(input[..k], m)
    {
      NextFits(input, m, b, size, k);
      length := MultiplyAdd(buffer, b, m, input[k], length);
      assert input[..k + 1] == input[..k] + [input[k]];
      ValSnoc(input[..k], input[k], m);
    }
    assert input[..|input|] == input;
    var i := size - length;
    while i < size && buffer[i] == 0
      invariant size - length <= i <= size
      invariant forall j :: 0 <= j < i ==> buffer[j] == 0
    {
      i := i + 1;
    }
    r := buffer[i..];
    ValZeros(i, buffer[..], b);
    assert buffer[..][i..] == r;
  }

  lemma AllZero(s: seq<nat>, b: nat)
    requires b > 0 && forall i :: 0 <= i < |s| ==> s[i] == 0
    ensures Digits(s, b) && ZeroAbove(s, 0) && Val(s, b) == 0
  {
  }

  lemma EmptyVal(b: nat)
    ensures Val([], b) == 0
  {
  }

  /** The number so far never outgrows the buffer. */
  lemma NextFits(input: seq<nat>, m: nat, b: nat, size: nat, k: nat)
    requires m >= 1 && k < |input| && Digits(input, m) && Pow(m, |input|) <= Pow(b, size)
    ensures m * Val(input[..k], m) + input[k] < Pow(b, size)
  {
    hide Val, Pow;
    assert input[..k + 1] == input[..k] + [input[k]];
    ValSnoc(input[..k], input[k], m);
    ValBound(input[..k + 1], m);
    PowGrows(m, k + 1, |input|);
  }

  // ---------------------------------------------------------------- encoding

  /** The text of a byte list: a '1' for each of its `z` leading zeroes, then the digits of the rest. */
  ghost predicate Encodes(v: seq<nat>, z: nat, d: seq<nat>, str: string) {
    && z <= |v| && (forall i :: 0 <= i < z ==> v[i] == 0) && (z < |v| ==> v[z] != 0)
    && Minimal(d, 58) && Val(d, 58) == Val(v[z..], 256)
    && Text(z, d, str)
  }

  ghost predicate Text(z: nat, d: seq<nat>, str: string) {
    && Digits(d, 58) && |str| == z + |d|
    && (forall i :: 0 <= i < z ==> str[i] == '1')
    && (forall i :: 0 <= i < |d| ==> str[z + i] == ToChar(d[i]))
  }

  method Encode(v: seq<Byte>) returns (str: string, ghost z: nat, ghost d: seq<nat>)
    ensures Encodes(v, z, d, str)
  {
    hide Val, Pow, ToChar;
    var zeroes := 0;
    while zeroes < |v| && v[zeroes] == 0
      invariant zeroes <= |v| && forall i :: 0 <= i < zeroes ==> v[i] == 0
    {
      zeroes := zeroes + 1;
    }
    z := zeroes;
    var rest: seq<nat> := v[zeroes..];
    Room58(|rest|);
    var b58 := Convert(rest, 256, 58, |rest| * 138 / 100 + 1);
    d := b58;
    str := seq(zeroes, _ => '1');
    for i := 0 to |b58|
      invariant |str| == zeroes + i && (forall j :: 0 <= j < zeroes ==> str[j] == '1')
      invariant forall j :: 0 <= j < i ==> str[zeroes + j] == ToChar(b58[j])
    {
      str := str + [ToChar(b58[i])];
    }
  }

  // ---------------------------------------------------------------- decoding

  /** The text between `lo` and `hi` is in the alphabet, and all around it is white space. */
  ghost predicate Accepts(s: string, lo: nat, hi: nat) {
    && lo <= hi <= |s|
    && (forall i :: 0 <= i < lo ==> IsSpace(s[i]))
    && (forall i :: lo <= i < hi ==> FromChar(s[i]).Some?)
    && (forall i :: hi <= i < |s| ==> IsSpace(s[i]))
  }

  /** The bytes of a text with `z` leading '1' and the digits `d` after them. */
  ghost predicate Bytes(z: nat, d: seq<nat>, vch: seq<nat>) {
    && z <= |vch| && (forall i :: 0 <= i < z ==> vch[i] == 0)
    && Minimal(vch[z..], 256) && Val(vch[z..], 256) == Val(d, 58)
  }

  /** The text from `lo` to `hi` is `z` times '1' and then the digits `d`, the first of them not zero. */
  ghost predicate Reads(s: string, lo: nat, hi: nat, z: nat, d: seq<nat>) {
    lo <= hi <= |s| && Minimal(d, 58) && Text(z, d, s[lo..hi])
  }

  method Decode(s: string) returns (r: Option<seq<nat>>, ghost lo: nat, ghost hi: nat, ghost z: nat, ghost d: seq<nat>)
    ensures r.None? <==> forall a, b :: !Accepts(s, a, b)
    ensures r.Some? ==> Accepts(s, lo, hi) && Reads(s, lo, hi, z, d) && Bytes(z, d, r.value)
  {
    hide Val, Pow, ToChar, FromChar, IsSpace;
    var psz := 0;
    while psz < |s| && IsSpace(s[psz])
      invariant psz <= |s| && forall i :: 0 <= i < psz ==> IsSpace(s[i])
    {
      psz := psz + 1;
    }
    lo, hi, z, d := psz, psz, 0, [];
    var start := psz;
    while psz < |s| && s[psz] == '1'
      invariant start <= psz <= |s| && forall i :: start <= i < psz ==> s[i] == '1'
    {
      psz := psz + 1;
    }
    var zeroes := psz - start;
    var first := psz;
    var digits: seq<nat> := [];
    while psz < |s| && !IsSpace(s[psz])
      invariant first <= psz <= |s| && |digits| == psz - first
      invariant forall i :: 0 <= i < |digits| ==> FromChar(s[first + i]) == Some(digits[i])
    {
      if FromChar(s[psz]).None? {
        NotAccepted(s, psz);
        return None, lo, hi, z, d;
      }
      digits := digits + [FromChar(s[psz]).value];
      psz := psz + 1;
    }
    var stop := psz;
    while psz < |s| && IsSpace(s[psz])
      invariant stop <= psz <= |s| && forall i :: stop <= i < psz ==> IsSpace(s[i])
    {
      psz := psz + 1;
    }
    if psz < |s| {
      StartNotSpace(s, start, first, stop);
      SpaceInside(s, start, stop, psz);
      return None, lo, hi, z, d;
    }
    hi, z, d := stop, zeroes, digits;
    CoreRead(s, start, first, stop, digits);
    RoomFor(digits, |s| - first);
    var b256 := Convert(digits, 58, 256, (|s| - first) * 733 / 1000 + 1);
    var vch: seq<nat> := seq(zeroes, _ => 0) + b256;
    assert vch[zeroes..] == b256;
    r := Some(vch);
  }

  lemma NotAccepted(s: string, q: nat)
    requires q < |s| && !IsSpace(s[q]) && FromChar(s[q]).None?
    ensures forall a, b :: !Accepts(s, a, b)
  {
  }

  lemma StartNotSpace(s: string, start: nat, first: nat, stop: nat)
    requires start <= first <= stop < |s| && IsSpace(s[stop])
    requires !IsSpace(s[start])
    ensures start < stop
  {
  }

  lemma SpaceInside(s: string, x: nat, y: nat, w: nat)
    requires x < y < w < |s| && !IsSpace(s[x]) && IsSpace(s[y]) && !IsSpace(s[w])
    ensures forall a, b :: !Accepts(s, a, b)
  {
  }

  /** What was read between the white space. */
  lemma CoreRead(s: string, start: nat, first: nat, stop: nat, digits: seq<nat>)
    requires start <= first <= stop <= |s| && |digits| == stop - first
    requires (forall i :: 0 <= i < start ==> IsSpace(s[i])) && (forall i :: stop <= i < |s| ==> IsSpace(s[i]))
    requires (forall i :: start <= i < first ==> s[i] == '1') && (first < |s| ==> s[first] != '1')
    requires forall i :: 0 <= i < |digits| ==> FromChar(s[first + i]) == Some(digits[i])
    ensures Accepts(s, start, stop) && Reads(s, start, stop, first - start, digits)
  {
    hide IsSpace, ToChar, FromChar;
    OneIsZero();
    forall i | start <= i < stop
      ensures FromChar(s[i]).Some?
      ensures i >= first ==>
                digits[i - first] < 58 && s[i] == ToChar(digits[i - first]) && (digits[i - first] == 0 <==> s[i] == '1')
    {
      if i >= first {
        assert FromChar(s[first + (i - first)]) == Some(digits[i - first]);
        DigitInverse(s[i]);
      }
    }
    forall i | 0 <= i < |digits|
      ensures digits[i] < 58 && s[start..stop][first - start + i] == ToChar(digits[i])
    {
      assert s[start..stop][first - start + i] == s[first + i];
    }
  }

  lemma OneIsZero()
    ensures FromChar('1') == Some(0)
  {
  }

  lemma RoomFor(digits: seq<nat>, n: nat)
    requires |digits| <= n
    ensures Pow(58, |digits|) <= Pow(256, n * 733 / 1000 + 1)
  {
    hide Pow;
    PowGrows(58, |digits|, n);
    Room256(n);
  }

  // ---------------------------------------------------------------- whole trips

  /** Decoding undoes encoding, for every byte list. */
  method RoundTrip(v: seq<Byte>) returns (r: Option<seq<nat>>)
    ensures r == Some(v)
  {
    hide Val, Pow, ToChar, FromChar, IsSpace;
    var str;
    ghost var z, d, lo, hi, z', d';
    str, z, d := Encode(v);
    r, lo, hi, z', d' := Decode(str);
    TextAccepted(z, d, str);
    assert r.Some?;
    OnlyWhole(str, lo, hi);
    assert str[0..|str|] == str;
    TextUnique(z, d, z', d', str);
    BytesBack(v, z, d, r.value);
  }

  lemma TextAccepted(z: nat, d: seq<nat>, str: string)
    requires Text(z, d, str)
    ensures Accepts(str, 0, |str|) && forall i :: 0 <= i < |str| ==> !IsSpace(str[i])
  {
    hide ToChar, FromChar, IsSpace;
    OneIsZero();
    forall i | 0 <= i < |str|
      ensures FromChar(str[i]).Some? && !IsSpace(str[i])
    {
      if i >= z {
        assert str[z + (i - z)] == ToChar(d[i - z]);
        CharInverse(d[i - z]);
      } else {
        DigitInverse(str[i]);
      }
    }
  }

  /** A text without white space is read as a whole. */
  lemma OnlyWhole(str: string, lo: nat, hi: nat)
    requires Accepts(str, lo, hi) && forall i :: 0 <= i < |str| ==> !IsSpace(str[i])
    ensures lo == 0 && hi == |str|
  {
    hide IsSpace;
    if str != [] {
      var first, last := str[0], str[|str| - 1];
    }
  }

  lemma TextUnique(z: nat, d: seq<nat>, z': nat, d': seq<nat>, str: string)
    requires Text(z, d, str) && Text(z', d', str) && Minimal(d, 58) && Minimal(d', 58)
    ensures z == z' && d == d'
  {
  }

  lemma BytesBack(v: seq<Byte>, z: nat, d: seq<nat>, vch: seq<nat>)
    requires z <= |v| && (forall i :: 0 <= i < z ==> v[i] == 0) && (z < |v| ==> v[z] != 0)
    requires Val(d, 58) == Val(v[z..], 256) && Bytes(z, d, vch)
    ensures vch == v
  {
    hide Val;
    var rest: seq<nat> := v[z..];
    assert Minimal(rest, 256);
    MinimalUnique(rest, vch[z..], 256);
    assert vch == vch[..z] + vch[z..] && v == v[..z] + v[z..];
    assert vch[..z] == v[..z];
  }

  /** Encoding undoes decoding, for every text without white space that is accepted. */
  method TextTrip(s: string) returns (r: Option<string>)
    requires forall i :: 0 <= i < |s| ==> !IsSpace(s[i])
    ensures r.Some? ==> r.value == s
    ensures r.None? <==> exists i :: 0 <= i < |s| && FromChar(s[i]).None?
  {
    hide Val, Pow, ToChar, FromChar, IsSpace;
    var decoded;
    ghost var lo, hi, z, d, z', d';
    decoded, lo, hi, z, d := Decode(s);
    if decoded.None? {
      assert !Accepts(s, 0, |s|);
      return None;
    }
    OnlyWhole(s, lo, hi);
    assert s[0..|s|] == s;
    BytesOk(z, d, decoded.value);
    var v: seq<Byte> := decoded.value;
    var str;
    str, z', d' := Encode(v);
    SameText(v, z, d, z', d', s, str);
    r := Some(str);
  }

  lemma BytesOk(z: nat, d: seq<nat>, vch: seq<nat>)
    requires Bytes(z, d, vch)
    ensures forall i :: 0 <= i < |vch| ==> vch[i] < 256
  {
  }

  lemma SameText(v: seq<Byte>, z: nat, d: seq<nat>, z': nat, d': seq<nat>, s: string, str: string)
    requires Bytes(z, d, v) && Minimal(d, 58) && Text(z, d, s) && Encodes(v, z', d', str)
    ensures str == s
  {
    hide Val, ToChar;
    if z < |v| {
      assert v[z] == v[z..][0];
    }
    assert z == z';
    MinimalUnique(d, d', 58);
    forall i | 0 <= i < |s|
      ensures s[i] == str[i]
    {
      if i >= z {
        assert s[z + (i - z)] == ToChar(d[i - z]);
      }
    }
  }
}
