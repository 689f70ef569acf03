/** CashAddr strings (src/cashaddr.cpp). */
module CashAddrFormat {
  import opened Common
  import opened CashAddr

  // ---------------------------------------------------------------- characters

  /** The character set, as a table in both directions. */
  function ToChar(v: Value): char {
    match v
    case 0 => 'q' case 1 => 'p' case 2 => 'z' case 3 => 'r'
    case 4 => 'y' case 5 => '9' case 6 => 'x' case 7 => '8'
    case 8 => 'g' case 9 => 'f' case 10 => '2' case 11 => 't'
    case 12 => 'v' case 13 => 'd' case 14 => 'w' case 15 => '0'
    case 16 => 's' case 17 => '3' case 18 => 'j' case 19 => 'n'
    case 20 => '5' case 21 => '4' case 22 => 'k' case 23 => 'h'
    case 24 => 'c' case 25 => 'e' case 26 => '6' case 27 => 'm'
    case 28 => 'u' case 29 => 'a' case 30 => '7' case 31 => 'l'
  }

  function FromLower(c: char): Option<Value> {
    match c
    case 'q' => Some(0) case 'p' => Some(1) case 'z' => Some(2) case 'r' => Some(3)
    case 'y' => Some(4) case '9' => Some(5) case 'x' => Some(6) case '8' => Some(7)
    case 'g' => Some(8) case 'f' => Some(9) case '2' => Some(10) case 't' => Some(11)
    case 'v' => Some(12) case 'd' => Some(13) case 'w' => Some(14) case '0' => Some(15)
    case 's' => Some(16) case '3' => Some(17) case 'j' => Some(18) case 'n' => Some(19)
    case '5' => Some(20) case '4' => Some(21) case 'k' => Some(22) case 'h' => Some(23)
    case 'c' => Some(24) case 'e' => Some(25) case '6' => Some(26) case 'm' => Some(27)
    case 'u' => Some(28) case 'a' => Some(29) case '7' => Some(30) case 'l' => Some(31)
    case _ => None
  }

  predicate IsLower(c: char) {
    'a' <= c <= 'z'
  }

  predicate IsUpper(c: char) {
    'A' <= c <= 'Z'
  }

  predicate IsDigit(c: char) {
    '0' <= c <= '9'
  }

  predicate IsLetter(c: char) {
    IsLower(c) || IsUpper(c)
  }

  /** A letter in lower case. */
  function LowerCase(c: char): char {
    if IsUpper(c) then c + 32 as char else c
  }

  function Lower(s: string): (r: string)
    ensures |r| == |s| && forall i :: 0 <= i < |s| ==> r[i] == LowerCase(s[i])
  {
    seq(|s|, i requires 0 <= i < |s| => LowerCase(s[i]))
  }

  /** The reverse table: letters count in either case. */
  function FromChar(c: char): Option<Value> {
    FromLower(LowerCase(c))
  }

  lemma CharInverse(v: Value)
    ensures FromChar(ToChar(v)) == Some(v) && (IsLower(ToChar(v)) || IsDigit(ToChar(v)))
  {
    CharClass(v);
    LowerInverse(v);
    hide ToChar, FromLower;
  }

  lemma CharClass(v: Value)
    ensures IsLower(ToChar(v)) || IsDigit(ToChar(v))
  {
  }

  lemma LowerInverse(v: Value)
    ensures FromLower(ToChar(v)) == Some(v)
  {
    if v < 8 {
    } else if v < 16 {
    } else if v < 24 {
    }
  }

  lemma ValueInverse(c: char)
    requires FromChar(c).Some?
    ensures ToChar(FromChar(c).value) == LowerCase(c)
  {
    hide ToChar, FromLower;
    TableInverse(LowerCase(c));
  }

  lemma TableInverse(c: char)
    requires FromLower(c).Some?
    ensures ToChar(FromLower(c).value) == c
  {
    if c <= '9' {
    } else if c < 'h' {
    } else if c < 'q' {
    }
  }

  // ---------------------------------------------------------------- the shape of a string

  /** All characters from `lo` on, below `hi`, are letters or digits. */
  ghost predicate Plain(str: string, lo: nat, hi: nat) {
    forall i :: lo <= i < hi && i < |str| ==> IsLetter(str[i]) || IsDigit(str[i])
  }

  ghost predicate Letters(str: string, hi: nat) {
    forall i :: 0 <= i < hi && i < |str| ==> IsLetter(str[i])
  }

  /** Below `hi` the string has its only separator at `n`, after letters; or none, when `n` is zero. */
  ghost predicate SplitsTo(str: string, n: nat, hi: nat) {
    if n == 0 then Plain(str, 0, hi)
    else n < hi && n < |str| && str[n] == ':' && Letters(str, n) && Plain(str, n + 1, hi)
  }

  ghost predicate Splits(str: string, n: nat) {
    SplitsTo(str, n, |str|)
  }

  ghost predicate HasLower(str: string, hi: nat) {
    exists i :: 0 <= i < hi && i < |str| && IsLower(str[i])
  }

  ghost predicate HasUpper(str: string, hi: nat) {
    exists i :: 0 <= i < hi && i < |str| && IsUpper(str[i])
  }

  ghost predicate HasDigit(str: string, hi: nat) {
    exists i :: 0 <= i < hi && i < |str| && IsDigit(str[i])
  }

  ghost predicate MixedCase(str: string) {
    HasLower(str, |str|) && HasUpper(str, |str|)
  }

  lemma SplitUnique(str: string, m: nat, n: nat)
    requires Splits(str, m) && Splits(str, n)
    ensures m == n
  {
  }

  /** A separator that is first, comes after a digit or comes second fits no shape. */
  lemma NoSplit(str: string, n: nat, i: nat)
    requires i < |str| && str[i] == ':' && SplitsTo(str, n, i) && (i == 0 || n != 0 || HasDigit(str, i))
    ensures forall k :: !Splits(str, k)
  {
  }

  lemma BadChar(str: string, i: nat)
    requires i < |str| && !IsLetter(str[i]) && !IsDigit(str[i]) && str[i] != ':'
    ensures forall k :: !Splits(str, k)
  {
  }

  /** Checks the characters and finds the separator. */
  method Scan(str: string) returns (ok: bool, prefixSize: nat)
    ensures ok <==> !MixedCase(str) && exists n :: Splits(str, n)
    ensures ok ==> Splits(str, prefixSize)
  {
    hide SplitsTo, HasLower, HasUpper, HasDigit;
    var lower, upper, hasNumber := false, false, false;
    prefixSize := 0;
    ScanStart(str);
    for i := 0 to |str|
      invariant SplitsTo(str, prefixSize, i)
      invariant lower == HasLower(str, i) && upper == HasUpper(str, i) && hasNumber == HasDigit(str, i)
    {
      ScanStep(str, prefixSize, i);
      var c := str[i];
      if IsLower(c) {
        lower := true;
      } else if IsUpper(c) {
        upper := true;
      } else if IsDigit(c) {
        hasNumber := true;
      } else if c == ':' {
        if hasNumber || i == 0 || prefixSize != 0 {
          NoSplit(str, prefixSize, i);
          return false, 0;
        }
        ScanColon(str, i);
        prefixSize := i;
      } else {
        BadChar(str, i);
        return false, 0;
      }
    }
    assert Splits(str, prefixSize);
    ok := !(upper && lower);
  }

  lemma ScanStart(str: string)
    ensures SplitsTo(str, 0, 0) && !HasLower(str, 0) && !HasUpper(str, 0) && !HasDigit(str, 0)
  {
  }

  lemma ScanStep(str: string, n: nat, i: nat)
    requires i < |str| && SplitsTo(str, n, i)
    ensures HasLower(str, i + 1) <==> HasLower(str, i) || IsLower(str[i])
    ensures HasUpper(str, i + 1) <==> HasUpper(str, i) || IsUpper(str[i])
    ensures HasDigit(str, i + 1) <==> HasDigit(str, i) || IsDigit(str[i])
    ensures IsLetter(str[i]) || IsDigit(str[i]) ==> SplitsTo(str, n, i + 1)
  {
  }

  lemma ScanColon(str: string, i: nat)
    requires 0 < i < |str| && str[i] == ':' && SplitsTo(str, 0, i) && !HasDigit(str, i)
    ensures SplitsTo(str, i, i + 1)
  {
  }

  // ---------------------------------------------------------------- encoding and decoding

  /** The characters spell the values. */
  ghost predicate Spells(s: string, v: seq<Value>) {
    |s| == |v| && forall i :: 0 <= i < |s| ==> FromChar(s[i]) == Some(v[i])
  }

  ghost predicate Writes(v: seq<Value>, s: string) {
    |s| == |v| && forall i :: 0 <= i < |v| ==> s[i] == ToChar(v[i])
  }

  method Encode(prefix: string, payload: seq<Value>) returns (ret: string, ghost checksum: seq<Value>)
    ensures |checksum| == 8 && Checks(prefix, payload + checksum)
    ensures |ret| == |prefix| + 1 + |payload| + 8 && ret[..|prefix| + 1] == prefix + ":"
    ensures Writes(payload + checksum, ret[|prefix| + 1..])
  {
    hide Checks, ToChar;
    var sum := CreateChecksum(prefix, payload);
    checksum := sum;
    var combined := payload + sum;
    var chars := "";
    for i := 0 to |combined|
      invariant |chars| == i && forall j :: 0 <= j < i ==> chars[j] == ToChar(combined[j])
    {
      chars := chars + [ToChar(combined[i])];
    }
    ret := prefix + ":" + chars;
    assert ret[..|prefix| + 1] == prefix + ":" && ret[|prefix| + 1..] == chars;
  }

  /** Where the values of a string start. */
  function Body(str: string, n: nat): string
    requires n < |str| || n == 0
  {
    if n == 0 then str else str[n + 1..]
  }

  function PrefixOf(str: string, n: nat, defaultPrefix: string): string
    requires n <= |str|
  {
    if n == 0 then defaultPrefix else Lower(str[..n])
  }

  /** A string passes every test: it has a shape, and its body spells values that check. */
  ghost predicate Accepted(str: string, defaultPrefix: string, n: nat, prefix: string, values: seq<Value>) {
    && !MixedCase(str) && Splits(str, n) && (n == 0 || n < |str|)
    && prefix == PrefixOf(str, n, defaultPrefix)
    && Spells(Body(str, n), values) && Checks(prefix, values)
  }

  /** A string is accepted, and its values end in a checksum. */
  ghost predicate Decodes(str: string, defaultPrefix: string, n: nat, prefix: string, values: seq<Value>) {
    Accepted(str, defaultPrefix, n, prefix, values) && |values| >= 8
  }

  /** The payload is the values but the last eight; with fewer values its end lies before its start. */
  datatype Outcome = Refused | Decoded(prefix: string, payload: seq<Value>) | BeforeStart

  method ReadValues(s: string) returns (ok: bool, values: seq<Value>)
    ensures ok ==> Spells(s, values)
    ensures !ok ==> forall v :: !Spells(s, v)
  {
    hide FromChar;
    values := [];
    for i := 0 to |s|
      invariant |values| == i && forall j :: 0 <= j < i ==> FromChar(s[j]) == Some(values[j])
    {
      if FromChar(s[i]).None? {
        NotSpelled(s, i);
        return false, [];
      }
      values := values + [FromChar(s[i]).value];
    }
    ok := true;
  }

  lemma NotSpelled(s: string, i: nat)
    requires i < |s| && FromChar(s[i]).None?
    ensures forall v :: !Spells(s, v)
  {
  }

  /** Decodes a string. */
  method Decode(str: string, defaultPrefix: string) returns (r: Outcome)
    ensures r.Refused? <==> forall n, p, v :: !Accepted(str, defaultPrefix, n, p, v)
    ensures r.Decoded? <==> exists n, p, v :: Decodes(str, defaultPrefix, n, p, v)
    ensures forall n, p, v :: Decodes(str, defaultPrefix, n, p, v) ==> r == Decoded(p, v[..|v| - 8])
    ensures r.BeforeStart? <==> exists n, p, v :: Accepted(str, defaultPrefix, n, p, v) && |Body(str, n)| < 8
  {
    hide Splits, MixedCase, Checks, Spells;
    var ok, prefixSize := Scan(str);
    if !ok {
      return Refused;
    }
    SplitInside(str, prefixSize);
    var prefix := PrefixOf(str, prefixSize, defaultPrefix);
    var good, values := ReadValues(Body(str, prefixSize));
    if !good {
      OnlyAt(str, defaultPrefix, prefixSize);
      return Refused;
    }
    OnlyValues(str, defaultPrefix, prefixSize, values);
    var valid := VerifyChecksum(prefix, values);
    if !valid {
      return Refused;
    }
    SpellsLength(Body(str, prefixSize), values);
    assert Accepted(str, defaultPrefix, prefixSize, prefix, values);
    if |values| < 8 {
      return BeforeStart;
    }
    assert Decodes(str, defaultPrefix, prefixSize, prefix, values);
    return Decoded(prefix, values[..|values| - 8]);
  }

  lemma SplitInside(str: string, n: nat)
    requires Splits(str, n)
    ensures n == 0 || n < |str|
  {
  }

  lemma OnlyAt(str: string, defaultPrefix: string, n: nat)
    requires Splits(str, n) && (n == 0 || n < |str|) && forall v :: !Spells(Body(str, n), v)
    ensures forall m, p, v :: !Accepted(str, defaultPrefix, m, p, v)
  {
  }

  lemma SpellsLength(s: string, v: seq<Value>)
    requires Spells(s, v)
    ensures |s| == |v|
  {
  }

  lemma OnlyValues(str: string, defaultPrefix: string, n: nat, values: seq<Value>)
    requires Splits(str, n) && (n == 0 || n < |str|) && Spells(Body(str, n), values)
    ensures forall m, p, v :: Accepted(str, defaultPrefix, m, p, v) ==>
      m == n && p == PrefixOf(str, n, defaultPrefix) && v == values
  {
    hide Splits, MixedCase, Checks, Spells;
    forall m, p, v | Accepted(str, defaultPrefix, m, p, v)
      ensures m == n && v == values
    {
      SplitUnique(str, m, n);
      SpellsUnique(Body(str, n), v, values);
    }
  }

  lemma SpellsUnique(s: string, v: seq<Value>, w: seq<Value>)
    requires Spells(s, v) && Spells(s, w)
    ensures v == w
  {
  }

  // ---------------------------------------------------------------- a prefix that checks alone

  const LONE_PREFIX := "utcvmmvctu"

  lemma LoneValues()
    ensures ExpandPrefix(LONE_PREFIX) + [] == [21, 20, 3, 22, 13, 13, 22, 3, 20, 21, 0]
  {
  }

  lemma LoneSteps()
    ensures Step(0x1, 21) == 0x35 && Step(0x35, 20) == 0x6b4 && Step(0x6b4, 3) == 0xd683
    ensures Step(0xd683, 22) == 0x1ad076 && Step(0x1ad076, 13) == 0x35a0ecd && Step(0x35a0ecd, 13) == 0x6b41d9ad
    ensures Step(0x6b41d9ad, 22) == 0xd683b35b6 && Step(0xd683b35b6, 3) == 0x35f5da38a2
    ensures Step(0x35f5da38a2, 20) == 0x3432753e72 && Step(0x3432753e72, 21) == 0xcc795e473
    ensures Step(0xcc795e473, 0) == 0x1
  {
  }

  lemma LoneChecks()
    ensures Checks(LONE_PREFIX, [])
  {
    hide Run, Step, ExpandPrefix;
    LoneValues();
    LoneSteps();
    var v: seq<Value> := [21, 20, 3, 22, 13, 13, 22, 3, 20, 21, 0];
    var w: seq<bv40> := [
      0x1, 0x35, 0x6b4, 0xd683, 0x1ad076, 0x35a0ecd,
      0x6b41d9ad, 0xd683b35b6, 0x35f5da38a2, 0x3432753e72, 0xcc795e473, 0x1];
    RunTrace(v, w);
  }

  /** A prefix whose values check by themselves is accepted with no body, and then no payload can be taken. */
  lemma LonePrefix(defaultPrefix: string)
    ensures Accepted(LONE_PREFIX + ":", defaultPrefix, 10, LONE_PREFIX, []) && |Body(LONE_PREFIX + ":", 10)| < 8
  {
    hide Checks;
    LoneChecks();
    var str := LONE_PREFIX + ":";
    assert Lower(str[..10]) == LONE_PREFIX;
  }

  // ---------------------------------------------------------------- whole trips

  /** Decoding undoes encoding, for every nonempty prefix of lower-case letters and every payload. */
  method RoundTrip(prefix: string, payload: seq<Value>, defaultPrefix: string) returns (r: Outcome)
    requires prefix != "" && forall i :: 0 <= i < |prefix| ==> IsLower(prefix[i])
    ensures r == Decoded(prefix, payload)
  {
    hide Checks, Decodes;
    var str;
    ghost var checksum;
    str, checksum := Encode(prefix, payload);
    r := Decode(str, defaultPrefix);
    ghost var all := payload + checksum;
    EncodedDecodes(str, prefix, all, defaultPrefix);
    assert all[..|all| - 8] == payload;
  }

  lemma EncodedDecodes(str: string, prefix: string, all: seq<Value>, defaultPrefix: string)
    requires prefix != "" && forall i :: 0 <= i < |prefix| ==> IsLower(prefix[i])
    requires |str| == |prefix| + 1 + |all| && str[..|prefix| + 1] == prefix + ":" && Writes(all, str[|prefix| + 1..])
    requires |all| >= 8 && Checks(prefix, all)
    ensures Decodes(str, defaultPrefix, |prefix|, prefix, all)
  {
    hide Checks, ToChar, FromChar;
    var n := |prefix|;
    forall i | 0 <= i < |str|
      ensures i < n ==> IsLower(str[i]) && str[i] == prefix[i]
      ensures i == n ==> str[i] == ':'
      ensures i > n ==> (IsLower(str[i]) || IsDigit(str[i])) && FromChar(str[i]) == Some(all[i - n - 1])
    {
      if i <= n {
        assert str[i] == str[..n + 1][i];
      } else {
        assert str[i] == str[n + 1..][i - n - 1];
        CharInverse(all[i - n - 1]);
      }
    }
    assert Lower(str[..n]) == prefix;
    forall i | 0 <= i < |all|
      ensures FromChar(str[n + 1..][i]) == Some(all[i])
    {
      assert str[n + 1..][i] == str[i + n + 1];
    }
  }

  /** Encoding what a string was decoded to gives its own body back, in lower case. */
  method ReEncode(str: string, defaultPrefix: string) returns (r: Option<string>)
    ensures r.None? <==> forall n, p, v :: !Decodes(str, defaultPrefix, n, p, v)
    ensures r.Some? ==> !MixedCase(str) && exists n: nat ::
      Splits(str, n) && (n == 0 || n < |str|) && r.value == PrefixOf(str, n, defaultPrefix) + ":" + Lower(Body(str, n))
  {
    hide Checks, Splits, MixedCase, ToChar, FromChar;
    var decoded := Decode(str, defaultPrefix);
    if !decoded.Decoded? {
      return None;
    }
    ghost var n, p, values :| Decodes(str, defaultPrefix, n, p, values);
    var Decoded(prefix, payload) := decoded;
    var again;
    ghost var checksum;
    again, checksum := Encode(prefix, payload);
    OnlyChecksum(prefix, payload, checksum, values);
    BodyWritten(Body(str, n), values, again[|prefix| + 1..]);
    assert again == again[..|prefix| + 1] + again[|prefix| + 1..];
    return Some(again);
  }

  /** A payload has only one checksum. */
  lemma OnlyChecksum(prefix: string, payload: seq<Value>, checksum: seq<Value>, values: seq<Value>)
    requires |checksum| == 8 && Checks(prefix, payload + checksum)
    requires |values| >= 8 && Checks(prefix, values) && payload == values[..|values| - 8]
    ensures payload + checksum == values
  {
    hide Checks;
    if payload + checksum != values {
      BurstDetected(prefix, payload + checksum, values, |payload|);
    }
  }

  lemma BodyWritten(body: string, values: seq<Value>, s: string)
    requires Spells(body, values) && Writes(values, s)
    ensures s == Lower(body)
  {
    hide ToChar, FromChar;
    forall i | 0 <= i < |s|
      ensures s[i] == LowerCase(body[i])
    {
      ValueInverse(body[i]);
    }
  }
}
