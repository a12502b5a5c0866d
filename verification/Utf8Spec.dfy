/**
 Well-formed UTF-8 after the grammar in section 4 of RFC 3629, and the repair of a byte string that is
 not: every byte outside all well-formed characters becomes a question mark.
 */
module Utf8Spec {

  const QUESTION: bv8 := 0x3F

  // ---- The grammar ----

  predicate Tail(c: bv8) {
    0x80 <= c <= 0xBF
  }

  predicate Two(a: bv8, b: bv8) {
    0xC2 <= a <= 0xDF && Tail(b)
  }

  predicate Three(a: bv8, b: bv8, c: bv8) {
    && Tail(c)
    && (|| (a == 0xE0 && 0xA0 <= b <= 0xBF)
        || (0xE1 <= a <= 0xEC && Tail(b))
        || (a == 0xED && 0x80 <= b <= 0x9F)
        || (0xEE <= a <= 0xEF && Tail(b)))
  }

  predicate Four(a: bv8, b: bv8, c: bv8, d: bv8) {
    && Tail(c) && Tail(d)
    && (|| (a == 0xF0 && 0x90 <= b <= 0xBF)
        || (0xF1 <= a <= 0xF3 && Tail(b))
        || (a == 0xF4 && 0x80 <= b <= 0x8F))
  }

  /** The length of the well-formed character that starts at i, or 0. */
  function CharLen(s: seq<bv8>, i: nat): (n: nat)
    requires i < |s|
    ensures n <= 4 && i + n <= |s|
  {
    if s[i] <= 0x7F then 1
    else if i + 2 <= |s| && Two(s[i], s[i + 1]) then 2
    else if i + 3 <= |s| && Three(s[i], s[i + 1], s[i + 2]) then 3
    else if i + 4 <= |s| && Four(s[i], s[i + 1], s[i + 2], s[i + 3]) then 4
    else 0
  }

  /** From position i on, s is a sequence of well-formed characters. */
  predicate ValidFrom(s: seq<bv8>, i: nat)
    requires i <= |s|
    decreases |s| - i
  {
    i == |s| || (CharLen(s, i) > 0 && ValidFrom(s, i + CharLen(s, i)))
  }

  predicate ValidUtf8(s: seq<bv8>) {
    ValidFrom(s, 0)
  }

  // ---- The grammar describes exactly the encodings of Unicode scalar values ----

  predicate Scalar(u: bv21) {
    u <= 0xD7FF || 0xE000 <= u <= 0x10FFFF
  }

  function Tail0(u: bv21): bv8 {
    0x80 | (u & 0x3F) as bv8
  }

  function Tail6(u: bv21): bv8 {
    0x80 | ((u >> 6) & 0x3F) as bv8
  }

  function Tail12(u: bv21): bv8 {
    0x80 | ((u >> 12) & 0x3F) as bv8
  }

  function Lead2(u: bv21): bv8 {
    0xC0 | ((u >> 6) & 0x1F) as bv8
  }

  function Lead3(u: bv21): bv8 {
    0xE0 | ((u >> 12) & 0x0F) as bv8
  }

  function Lead4(u: bv21): bv8 {
    0xF0 | ((u >> 18) & 0x07) as bv8
  }

  /** The encoding of section 3 of RFC 3629. */
  function Encode(u: bv21): seq<bv8>
    requires Scalar(u)
  {
    if u <= 0x7F then [u as bv8]
    else if u <= 0x7FF then [Lead2(u), Tail0(u)]
    else if u <= 0xFFFF then [Lead3(u), Tail6(u), Tail0(u)]
    else [Lead4(u), Tail12(u), Tail6(u), Tail0(u)]
  }

  /** The scalar value of the character that starts at i. */
  function Value(s: seq<bv8>, i: nat): bv21
    requires i < |s| && CharLen(s, i) > 0
  {
    var n := CharLen(s, i);
    if n == 1 then s[i] as bv21
    else if n == 2 then Value2(s[i], s[i + 1])
    else if n == 3 then Value3(s[i], s[i + 1], s[i + 2])
    else Value4(s[i], s[i + 1], s[i + 2], s[i + 3])
  }

  function Value2(a: bv8, b: bv8): bv21 {
    ((a & 0x1F) as bv21 << 6) | (b & 0x3F) as bv21
  }

  function Value3(a: bv8, b: bv8, c: bv8): bv21 {
    ((a & 0x0F) as bv21 << 12) | ((b & 0x3F) as bv21 << 6) | (c & 0x3F) as bv21
  }

  function Value4(a: bv8, b: bv8, c: bv8, d: bv8): bv21 {
    ((a & 0x07) as bv21 << 18) | ((b & 0x3F) as bv21 << 12) | ((c & 0x3F) as bv21 << 6) | (d & 0x3F) as bv21
  }

  lemma TwoIsEncoding(a: bv8, b: bv8)
    requires Two(a, b)
    ensures Scalar(Value2(a, b)) && Encode(Value2(a, b)) == [a, b]
  {
  }

  lemma ThreeRange(a: bv8, b: bv8, c: bv8)
    requires Three(a, b, c)
    ensures Scalar(Value3(a, b, c)) && 0x800 <= Value3(a, b, c) <= 0xFFFF
  {
  }

  lemma ThreeBytes(a: bv8, b: bv8, c: bv8)
    requires 0xE0 <= a <= 0xEF && Tail(b) && Tail(c)
    ensures var u := Value3(a, b, c); Lead3(u) == a && Tail6(u) == b && Tail0(u) == c
  {
  }

  lemma FourRange(a: bv8, b: bv8, c: bv8, d: bv8)
    requires Four(a, b, c, d)
    ensures 0x10000 <= Value4(a, b, c, d) <= 0x10FFFF
  {
  }

  lemma FourBytes(a: bv8, b: bv8, c: bv8, d: bv8)
    requires 0xF0 <= a <= 0xF7 && Tail(b) && Tail(c) && Tail(d)
    ensures var u := Value4(a, b, c, d); Lead4(u) == a && Tail12(u) == b && Tail6(u) == c && Tail0(u) == d
  {
  }

  /** Every character of the grammar is the encoding of its scalar value. */
  lemma CharIsEncoding(s: seq<bv8>, i: nat)
    requires i < |s| && CharLen(s, i) > 0
    ensures Scalar(Value(s, i)) && Encode(Value(s, i)) == s[i..i + CharLen(s, i)]
  {
    hide Lead2, Lead3, Lead4, Tail0, Tail6, Tail12, Value2, Value3, Value4;
    match CharLen(s, i)
    case 1 =>
    case 2 =>
      TwoIsEncoding(s[i], s[i + 1]);
    case 3 =>
      ThreeRange(s[i], s[i + 1], s[i + 2]);
      ThreeBytes(s[i], s[i + 1], s[i + 2]);
    case _ =>
      FourRange(s[i], s[i + 1], s[i + 2], s[i + 3]);
      FourBytes(s[i], s[i + 1], s[i + 2], s[i + 3]);
  }

  lemma EncodingIsTwo(u: bv21)
    requires 0x80 <= u <= 0x7FF
    ensures Two(Lead2(u), Tail0(u)) && Value2(Lead2(u), Tail0(u)) == u
  {
  }

  lemma EncodingIsThree(u: bv21)
    requires 0x800 <= u <= 0xFFFF && Scalar(u)
    ensures Three(Lead3(u), Tail6(u), Tail0(u))
  {
  }

  lemma ValueOfThree(u: bv21)
    requires u <= 0xFFFF
    ensures Value3(Lead3(u), Tail6(u), Tail0(u)) == u
  {
  }

  lemma EncodingIsFour(u: bv21)
    requires 0x10000 <= u <= 0x10FFFF
    ensures Four(Lead4(u), Tail12(u), Tail6(u), Tail0(u))
  {
  }

  lemma ValueOfFour(u: bv21)
    ensures Value4(Lead4(u), Tail12(u), Tail6(u), Tail0(u)) == u
  {
  }

  /** The encoding of every scalar value, whatever follows it, is a character of the grammar and stands
      for that value. */
  lemma EncodingIsChar(u: bv21, rest: seq<bv8>)
    requires Scalar(u)
    ensures CharLen(Encode(u) + rest, 0) == |Encode(u)| && Value(Encode(u) + rest, 0) == u
  {
    hide Lead2, Lead3, Lead4, Tail0, Tail6, Tail12, Value2, Value3, Value4;
    if u <= 0x7F {
    } else if u <= 0x7FF {
      EncodingIsTwo(u);
    } else if u <= 0xFFFF {
      EncodingIsThree(u);
      ValueOfThree(u);
    } else {
      EncodingIsFour(u);
      ValueOfFour(u);
    }
  }

  // ---- The repair ----

  /** Byte j lies inside some well-formed character of s. */
  predicate Kept(s: seq<bv8>, j: nat)
    requires j < |s|
  {
    exists i :: 0 <= i <= j && CharLen(s, i) > j - i
  }

  /** Every byte that lies in no well-formed character becomes a question mark. */
  function Repaired(s: seq<bv8>): (r: seq<bv8>)
    ensures |r| == |s|
  {
    seq(|s|, j requires 0 <= j < |s| => if Kept(s, j) then s[j] else QUESTION)
  }

  /** No character of s starts before position i and ends after it. */
  ghost predicate Boundary(s: seq<bv8>, i: nat) {
    forall k :: 0 <= k < i && k < |s| ==> CharLen(s, k) <= i - k
  }

  /** Characters do not overlap: none starts inside another. */
  lemma NoCharInside(s: seq<bv8>, i: nat, k: nat)
    requires i < k < |s| && k < i + CharLen(s, i)
    ensures Tail(s[k]) && CharLen(s, k) == 0
  {
  }

  /** The scan steps from one boundary to the next; what it steps over is kept as a whole or not at all. */
  lemma NextBoundary(s: seq<bv8>, i: nat)
    requires i < |s| && Boundary(s, i)
    ensures CharLen(s, i) > 0 ==>
              Boundary(s, i + CharLen(s, i)) && forall j :: i <= j < i + CharLen(s, i) ==> Kept(s, j)
    ensures CharLen(s, i) == 0 ==> Boundary(s, i + 1) && !Kept(s, i)
  {
    hide CharLen;
    var n := CharLen(s, i);
    if n > 0 {
      forall k | i < k < i + n ensures CharLen(s, k) == 0 {
        NoCharInside(s, i, k);
      }
    }
  }

  lemma AsciiKept(s: seq<bv8>, j: nat)
    requires j < |s| && s[j] <= 0x7F
    ensures Kept(s, j)
  {
    assert CharLen(s, j) == 1;
  }

  /** Whether a character starts at i depends on its own bytes only. */
  lemma CharLenLocal(s: seq<bv8>, r: seq<bv8>, i: nat)
    requires i < |s| == |r| && CharLen(s, i) > 0
    requires forall j :: i <= j < i + CharLen(s, i) ==> r[j] == s[j]
    ensures CharLen(r, i) == CharLen(s, i)
  {
    assert r[i] == s[i];
    assert CharLen(s, i) > 1 ==> r[i + 1] == s[i + 1];
    assert CharLen(s, i) > 2 ==> r[i + 2] == s[i + 2];
    assert CharLen(s, i) > 3 ==> r[i + 3] == s[i + 3];
  }

  lemma {:induction false} RepairedFrom(s: seq<bv8>, i: nat)
    requires i <= |s| && Boundary(s, i)
    ensures ValidFrom(Repaired(s), i)
    decreases |s| - i
  {
    hide CharLen, Kept, Boundary;
    if i < |s| {
      NextBoundary(s, i);
      if CharLen(s, i) > 0 {
        CharLenLocal(s, Repaired(s), i);
        RepairedFrom(s, i + CharLen(s, i));
      } else {
        Question(Repaired(s), i);
        RepairedFrom(s, i + 1);
      }
    }
  }

  lemma Question(r: seq<bv8>, i: nat)
    requires i < |r| && r[i] == QUESTION
    ensures CharLen(r, i) == 1
  {
  }

  /** The repaired string is valid UTF-8. */
  lemma RepairedIsValid(s: seq<bv8>)
    ensures ValidUtf8(Repaired(s))
  {
    RepairedFrom(s, 0);
  }

  lemma {:induction false} ValidKept(s: seq<bv8>, i: nat, j: nat)
    requires i <= j < |s| && ValidFrom(s, i)
    ensures Kept(s, j)
    decreases |s| - i
  {
    hide CharLen;
    if j >= i + CharLen(s, i) {
      ValidKept(s, i + CharLen(s, i), j);
    }
  }

  /** A string is valid exactly when all its bytes are kept, that is, when repairing changes nothing. */
  lemma ValidIffKept(s: seq<bv8>)
    ensures ValidUtf8(s) <==> forall j :: 0 <= j < |s| ==> Kept(s, j)
    ensures ValidUtf8(s) ==> Repaired(s) == s
  {
    hide Kept;
    if ValidUtf8(s) {
      forall j | 0 <= j < |s| ensures Kept(s, j) {
        ValidKept(s, 0, j);
      }
    }
    if forall j :: 0 <= j < |s| ==> Kept(s, j) {
      assert Repaired(s) == s;
      RepairedIsValid(s);
    }
  }

  /** A second repair changes nothing. */
  lemma RepairIdempotent(s: seq<bv8>)
    ensures Repaired(Repaired(s)) == Repaired(s)
  {
    RepairedIsValid(s);
    ValidIffKept(Repaired(s));
  }

  lemma CharBytes(s: seq<bv8>, i: nat, j: nat)
    requires i < |s| && i <= j < i + CharLen(s, i) && CharLen(s, i) > 1
    ensures s[j] >= 0x80
  {
  }

  /** The repair is the least one: any valid string made from s by putting question marks for bytes
      puts one for every byte that Repaired does. */
  lemma RepairIsLeast(s: seq<bv8>, r: seq<bv8>, j: nat)
    requires |r| == |s| && ValidUtf8(r) && forall k :: 0 <= k < |s| ==> r[k] == s[k] || r[k] == QUESTION
    requires j < |s| && !Kept(s, j)
    ensures r[j] == QUESTION
  {
    hide CharLen;
    if r[j] != QUESTION {
      ValidKept(r, 0, j);
      var i :| 0 <= i <= j && CharLen(r, i) > j - i;
      if s[j] <= 0x7F {
        AsciiKept(s, j);
      } else {
        OneByte(r, i);
        forall k | i <= k < i + CharLen(r, i) ensures r[k] == s[k] {
          CharBytes(r, i, k);
        }
        CharLenLocal(r, s, i);
      }
    }
  }

  lemma OneByte(s: seq<bv8>, i: nat)
    requires i < |s|
    ensures CharLen(s, i) == 1 <==> s[i] <= 0x7F
  {
  }
}
