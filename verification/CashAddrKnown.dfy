/** A known CashAddr string (src/test/cashaddr_tests.cpp): its payload is the whole alphabet in order, and its
    checksum fixes the code. */
module CashAddrKnown {
  import opened Common
  import opened CashAddr
  import opened CashAddrFormat

  const KNOWN_PREFIX := "bitcoincash"

  const KNOWN_BODY := "qpzry9x8gf" + "2tvdw0s3jn" + "54khce6mua" + "7lcw20ayyn"

  // The values of the prefix, and of the body in four parts.
  const V0: seq<Value> := [2, 9, 20, 3, 15, 9, 14, 3, 1, 19, 8, 0]
  const V1: seq<Value> := [0, 1, 2, 3, 4, 5, 6, 7, 8, 9]
  const V2: seq<Value> := [10, 11, 12, 13, 14, 15, 16, 17, 18, 19]
  const V3: seq<Value> := [20, 21, 22, 23, 24, 25, 26, 27, 28, 29]
  const V4: seq<Value> := [30, 31, 24, 14, 10, 15, 29, 4, 4, 19]

  function AllValues(): seq<Value> {
    V1 + V2 + V3 + V4
  }

  // ---------------------------------------------------------------- the checksum

  lemma Steps0()
    ensures Step(0x1, 2) == 0x22 && Step(0x22, 9) == 0x449
    ensures Step(0x449, 20) == 0x8934 && Step(0x8934, 3) == 0x112683
    ensures Step(0x112683, 15) == 0x224d06f && Step(0x224d06f, 9) == 0x449a0de9
    ensures Step(0x449a0de9, 14) == 0x89341bd2e && Step(0x89341bd2e, 3) == 0x8a9a8b2ba2
    ensures Step(0x8a9a8b2ba2, 1) == 0xd5ec9a1e50 && Step(0xd5ec9a1e50, 19) == 0x7445c65529
    ensures Step(0x7445c65529, 8) == 0xac1f536da6 && Step(0xac1f536da6, 0) == 0xf669cd6d15
  {
  }

  lemma Run0()
    ensures Run(0x1, V0) == 0xf669cd6d15
  {
    hide Run, Step;
    Steps0();
    var w: seq<bv40> := [
      0x1, 0x22, 0x449, 0x8934, 0x112683, 0x224d06f, 0x449a0de9,
      0x89341bd2e, 0x8a9a8b2ba2, 0xd5ec9a1e50, 0x7445c65529, 0xac1f536da6, 0xf669cd6d15];
    RunTrace(V0, w);
  }

  lemma Steps1()
    ensures Step(0xf669cd6d15, 0) == 0xf7d1778e5e && Step(0xf7d1778e5e, 1) == 0xc0c62be73f
    ensures Step(0xc0c62be73f, 2) == 0xa8a494e13a && Step(0xa8a494e13a, 3) == 0x61113cfe96
    ensures Step(0x61113cfe96, 4) == 0x7f376b83a8 && Step(0x7f376b83a8, 5) == 0x5ab85533ea
    ensures Step(0x5ab85533ea, 6) == 0x1861dc886d && Step(0x1861dc886d, 7) == 0xed7e401a24
    ensures Step(0xed7e401a24, 8) == 0x7465087ff5 && Step(0x7465087ff5, 9) == 0xa806963627
  {
  }

  lemma Run1()
    ensures Run(0xf669cd6d15, V1) == 0xa806963627
  {
    hide Run, Step;
    Steps1();
    var w: seq<bv40> := [
      0xf669cd6d15, 0xf7d1778e5e, 0xc0c62be73f, 0xa8a494e13a, 0x61113cfe96, 0x7f376b83a8,
      0x5ab85533ea, 0x1861dc886d, 0xed7e401a24, 0x7465087ff5, 0xa806963627];
    RunTrace(V1, w);
  }

  lemma Steps2()
    ensures Step(0xa806963627, 10) == 0x7551661d3f && Step(0x7551661d3f, 11) == 0x8e8b5a6f65
    ensures Step(0x8e8b5a6f65, 12) == 0x57d6b286bd && Step(0x57d6b286bd, 13) == 0x2d4f96ace7
    ensures Step(0x2d4f96ace7, 14) == 0xc23e36a14b && Step(0xc23e36a14b, 15) == 0xf7a73c2fb7
    ensures Step(0xf7a73c2fb7, 16) == 0xce0f5fda0e && Step(0xce0f5fda0e, 17) == 0xe978afc968
    ensures Step(0xe978afc968, 18) == 0xf4b8f2166f && Step(0xf4b8f2166f, 19) == 0xadf698e10d
  {
  }

  lemma Run2()
    ensures Run(0xa806963627, V2) == 0xadf698e10d
  {
    hide Run, Step;
    Steps2();
    var w: seq<bv40> := [
      0xa806963627, 0x7551661d3f, 0x8e8b5a6f65, 0x57d6b286bd, 0x2d4f96ace7, 0xc23e36a14b,
      0xf7a73c2fb7, 0xce0f5fda0e, 0xe978afc968, 0xf4b8f2166f, 0xadf698e10d];
    RunTrace(V2, w);
  }

  lemma Steps3()
    ensures Step(0xadf698e10d, 20) == 0xcb50bcf861 && Step(0xcb50bcf861, 21) == 0x4284cb848c
    ensures Step(0x4284cb848c, 22) == 0xfeb7db733e && Step(0xfeb7db733e, 23) == 0x74e108c548
    ensures Step(0x74e108c548, 24) == 0xb886816196 && Step(0xb886816196, 25) == 0x1ce4e172ee
    ensures Step(0x1ce4e172ee, 26) == 0x7dd9ff4a59 && Step(0x7dd9ff4a59, 27) == 0x76acc0dd4
    ensures Step(0x76acc0dd4, 28) == 0xed5981ba9c && Step(0xed5981ba9c, 29) == 0x709d3c68e0
  {
  }

  lemma Run3()
    ensures Run(0xadf698e10d, V3) == 0x709d3c68e0
  {
    hide Run, Step;
    Steps3();
    var w: seq<bv40> := [
      0xadf698e10d, 0xcb50bcf861, 0x4284cb848c, 0xfeb7db733e, 0x74e108c548, 0xb886816196,
      0x1ce4e172ee, 0x7dd9ff4a59, 0x76acc0dd4, 0xed5981ba9c, 0x709d3c68e0];
    RunTrace(V3, w);
  }

  lemma Steps4()
    ensures Step(0x709d3c68e0, 30) == 0x370014d490 && Step(0x370014d490, 31) == 0x6a8ba8b839
    ensures Step(0x6a8ba8b839, 24) == 0x94975fd835 && Step(0x94975fd835, 14) == 0xf513d57b3c
    ensures Step(0xf513d57b3c, 10) == 0x9892754b74 && Step(0x9892754b74, 15) == 0xed443b9d7c
    ensures Step(0xed443b9d7c, 29) == 0x732a7894e0 && Step(0x732a7894e0, 4) == 0x41e88b548a
    ensures Step(0x41e88b548a, 4) == 0x933fc173ec && Step(0x933fc173ec, 19) == 0x1
  {
  }

  lemma Run4()
    ensures Run(0x709d3c68e0, V4) == 0x1
  {
    hide Run, Step;
    Steps4();
    var w: seq<bv40> := [
      0x709d3c68e0, 0x370014d490, 0x6a8ba8b839, 0x94975fd835, 0xf513d57b3c, 0x9892754b74,
      0xed443b9d7c, 0x732a7894e0, 0x41e88b548a, 0x933fc173ec, 0x1];
    RunTrace(V4, w);
  }

  lemma KnownValues()
    ensures ExpandPrefix(KNOWN_PREFIX) == V0
  {
  }

  lemma KnownChecks()
    ensures Checks(KNOWN_PREFIX, AllValues())
  {
    hide Run, ExpandPrefix;
    KnownValues();
    Run0();
    Run1();
    Run2();
    Run3();
    Run4();
    assert V0 + AllValues() == V0 + V1 + V2 + V3 + V4;
    RunAppend(1, V0 + V1 + V2 + V3, V4);
    RunAppend(1, V0 + V1 + V2, V3);
    RunAppend(1, V0 + V1, V2);
    RunAppend(1, V0, V1);
  }

  // ---------------------------------------------------------------- the characters

  /** The characters of a list of values. */
  function Written(v: seq<Value>): (s: string)
    ensures Writes(v, s)
  {
    seq(|v|, i requires 0 <= i < |v| => ToChar(v[i]))
  }

  lemma WrittenAppend(v: seq<Value>, w: seq<Value>)
    ensures Written(v + w) == Written(v) + Written(w)
  {
    hide ToChar;
  }

  lemma Chars1()
    ensures Written(V1) == "qpzry9x8gf"
  {
  }

  lemma Chars2()
    ensures Written(V2) == "2tvdw0s3jn"
  {
  }

  lemma Chars3()
    ensures Written(V3) == "54khce6mua"
  {
  }

  lemma Chars4()
    ensures Written(V4) == "7lcw20ayyn"
  {
  }

  lemma KnownWritten()
    ensures Written(AllValues()) == KNOWN_BODY
  {
    hide ToChar, Written;
    Chars1();
    Chars2();
    Chars3();
    Chars4();
    WrittenAppend(V1, V2);
    WrittenAppend(V1 + V2, V3);
    WrittenAppend(V1 + V2 + V3, V4);
  }

  /** The string is decoded to a payload that is every value once, in order: the alphabet is as it is written there. */
  lemma KnownAddress(defaultPrefix: string)
    ensures Decodes(KNOWN_PREFIX + ":" + KNOWN_BODY, defaultPrefix, 11, KNOWN_PREFIX, AllValues())
  {
    hide Checks, AllValues, Written, Decodes;
    KnownChecks();
    KnownWritten();
    var str := KNOWN_PREFIX + ":" + KNOWN_BODY;
    assert |KNOWN_PREFIX| == 11 && |KNOWN_BODY| == |AllValues()| == 40;
    assert str[..12] == KNOWN_PREFIX + ":" && str[12..] == KNOWN_BODY;
    EncodedDecodes(str, KNOWN_PREFIX, AllValues(), defaultPrefix);
  }
}
