/** The in-place repair of a byte buffer before it is sent to Postgres. */
module Utf8 {
  import opened Utf8Spec

  /** The position of the first NUL byte at or after i, or |s|. */
  function FirstNul(s: seq<bv8>, i: nat): (p: nat)
    requires i <= |s|
    ensures i <= p <= |s| && (p < |s| ==> s[p] == 0)
    ensures forall j :: i <= j < p ==> s[j] != 0
    decreases |s| - i
  {
    if i == |s| || s[i] == 0 then i else FirstNul(s, i + 1)
  }

  predicate NoNul(s: seq<bv8>) {
    forall j :: 0 <= j < |s| ==> s[j] != 0
  }

  /** What the sanitizer leaves of s: repaired up to the first NUL byte, unchanged from there on. */
  function Sanitized(s: seq<bv8>): (r: seq<bv8>)
    ensures |r| == |s|
  {
    Repaired(s)[..FirstNul(s, 0)] + s[FirstNul(s, 0)..]
  }

  /** Its return value. */
  function Verdict(s: seq<bv8>): int {
    if !NoNul(s) then -1 else if ValidUtf8(s) then 0 else 1
  }

  /** The character length the lead byte announces. */
  function Announced(c: bv8): nat {
    if c & 0xE0 == 0xC0 then 2 else if c & 0xF0 == 0xE0 then 3 else if c & 0xF8 == 0xF0 then 4 else 0
  }

  /** The code's tests on one, two and three continuation bytes. */
  predicate Accepts2(c0: bv8, c1: bv8) {
    c1 & 0xC0 == 0x80 && c0 >= 0xC2
  }

  predicate Accepts3(c0: bv8, c1: bv8, c2: bv8) {
    c1 & 0xC0 == 0x80 && c2 & 0xC0 == 0x80 && !(c0 == 0xE0 && c1 < 0xA0) && !(c0 == 0xED && c1 > 0x9F)
  }

  predicate Accepts4(c0: bv8, c1: bv8, c2: bv8, c3: bv8) {
    && c1 & 0xC0 == 0x80 && c2 & 0xC0 == 0x80 && c3 & 0xC0 == 0x80
    && c0 <= 0xF4 && !(c0 == 0xF0 && c1 < 0x90) && !(c0 == 0xF4 && c1 > 0x8F)
  }

  lemma Masks2(c0: bv8, c1: bv8)
    ensures Announced(c0) == 2 && Accepts2(c0, c1) <==> Two(c0, c1)
  {
  }

  lemma Masks3(c0: bv8, c1: bv8, c2: bv8)
    ensures Announced(c0) == 3 && Accepts3(c0, c1, c2) <==> Three(c0, c1, c2)
  {
  }

  lemma Masks4(c0: bv8, c1: bv8, c2: bv8, c3: bv8)
    ensures Announced(c0) == 4 && Accepts4(c0, c1, c2, c3) <==> Four(c0, c1, c2, c3)
  {
  }

  /** The loop body's decision at position i: the length of the character there, 0 for an invalid byte. */
  method CheckAt(buf: array<bv8>, i: nat, len: nat) returns (n: nat)
    requires i < len <= buf.Length
    ensures n == CharLen(buf[..len], i)
  {
    var c0 := buf[i];
    if c0 < 0x80 {
      return 1;
    }
    var seqlen := Announced(c0);
    var valid := seqlen >= 2 && i + seqlen <= len;
    if valid {
      if seqlen == 2 {
        valid := Accepts2(c0, buf[i + 1]);
      } else if seqlen == 3 {
        valid := Accepts3(c0, buf[i + 1], buf[i + 2]);
      } else {
        valid := Accepts4(c0, buf[i + 1], buf[i + 2], buf[i + 3]);
      }
    }
    n := if valid then seqlen else 0;
    MasksAt(buf[..len], i);
  }

  lemma MasksAt(s: seq<bv8>, i: nat)
    requires i < |s|
    ensures i + 2 <= |s| ==> (Announced(s[i]) == 2 && Accepts2(s[i], s[i + 1]) <==> Two(s[i], s[i + 1]))
    ensures i + 3 <= |s| ==> (Announced(s[i]) == 3 && Accepts3(s[i], s[i + 1], s[i + 2]) <==> Three(s[i], s[i + 1], s[i + 2]))
    ensures i + 4 <= |s| ==>
              (Announced(s[i]) == 4 && Accepts4(s[i], s[i + 1], s[i + 2], s[i + 3]) <==> Four(s[i], s[i + 1], s[i + 2], s[i + 3]))
  {
    hide Announced, Accepts2, Accepts3, Accepts4, Two, Three, Four;
    if i + 2 <= |s| {
      Masks2(s[i], s[i + 1]);
    }
    if i + 3 <= |s| {
      Masks3(s[i], s[i + 1], s[i + 2]);
    }
    if i + 4 <= |s| {
      Masks4(s[i], s[i + 1], s[i + 2], s[i + 3]);
    }
  }

  lemma CharLenSuffix(s: seq<bv8>, r: seq<bv8>, i: nat)
    requires i < |s| == |r| && forall j :: i <= j < |s| ==> r[j] == s[j]
    ensures CharLen(r, i) == CharLen(s, i)
  {
    hide Two, Three, Four;
  }

  /** The buffer while the scan is at i: the part before i is repaired, the rest untouched. */
  ghost predicate Scanned(b: seq<bv8>, s: seq<bv8>, i: nat) {
    && |b| == |s| && i <= |s|
    && (forall j :: 0 <= j < i ==> b[j] == if Kept(s, j) then s[j] else QUESTION)
    && (forall j :: i <= j < |s| ==> b[j] == s[j])
    && (forall j :: 0 <= j < i ==> s[j] != 0)
    && Boundary(s, i)
  }

  lemma ScanStep(b: seq<bv8>, s: seq<bv8>, i: nat)
    requires i < |s| && Scanned(b, s, i) && s[i] != 0
    ensures CharLen(b, i) == CharLen(s, i)
    ensures CharLen(s, i) > 0 ==> Scanned(b, s, i + CharLen(s, i)) && forall j :: i <= j < i + CharLen(s, i) ==> Kept(s, j)
    ensures CharLen(s, i) == 0 ==> Scanned(b[i := QUESTION], s, i + 1) && !Kept(s, i)
  {
    hide CharLen, Kept, Boundary;
    CharLenSuffix(s, b, i);
    NextBoundary(s, i);
    if CharLen(s, i) > 1 {
      forall j | i < j < i + CharLen(s, i) ensures s[j] != 0 {
        CharBytes(s, i, j);
      }
    }
  }

  lemma ScanDone(b: seq<bv8>, s: seq<bv8>, i: nat)
    requires Scanned(b, s, i) && (i == |s| || s[i] == 0)
    ensures b == Sanitized(s) && i == FirstNul(s, 0)
  {
    hide Kept, Boundary, FirstNul;
    NulIsFirst(s, i);
    assert b[..i] == Repaired(s)[..i] && b[i..] == s[i..];
    assert b == b[..i] + b[i..];
  }

  /** The same, byte by byte. */
  lemma ScanDoneAt(b: seq<bv8>, s: seq<bv8>, i: nat)
    requires Scanned(b, s, i) && (i == |s| || s[i] == 0)
    ensures forall j :: 0 <= j < |s| ==> b[j] == if !Kept(s, j) && NoNul(s[..j + 1]) then 0x3F else s[j]
  {
    hide Kept, Boundary, NoNul;
    forall j | 0 <= j < |s| ensures b[j] == if !Kept(s, j) && NoNul(s[..j + 1]) then 0x3F else s[j] {
      NoNulUpTo(s, i, j);
    }
  }

  lemma NoNulUpTo(s: seq<bv8>, i: nat, j: nat)
    requires i <= |s| && j < |s| && (i < |s| ==> s[i] == 0) && forall k :: 0 <= k < i ==> s[k] != 0
    ensures NoNul(s[..j + 1]) <==> j < i
  {
    assert i <= j ==> s[..j + 1][i] == 0;
  }

  lemma NulIsFirst(s: seq<bv8>, i: nat)
    requires i <= |s| && (i < |s| ==> s[i] == 0) && forall j :: 0 <= j < i ==> s[j] != 0
    ensures FirstNul(s, 0) == i
  {
    hide FirstNul;
  }

  /** sanitize_utf8. */
  method SanitizeUtf8(buf: array<bv8>, len: nat) returns (r: int)
    requires len <= buf.Length
    modifies buf
    ensures buf[..len] == Sanitized(old(buf[..len])) && buf[len..] == old(buf[len..])
    ensures r == Verdict(old(buf[..len]))
    ensures r == -1 <==> !NoNul(old(buf[..len]))
    ensures r == 0 <==> NoNul(old(buf[..len])) && ValidUtf8(old(buf[..len]))
    ensures r == 1 <==> NoNul(old(buf[..len])) && !ValidUtf8(old(buf[..len]))
    ensures forall j :: 0 <= j < len ==>
              buf[j] == if !Kept(old(buf[..len]), j) && NoNul(old(buf[..len])[..j + 1]) then 0x3F else old(buf[..len])[j]
  {
    hide CharLen, Kept, Boundary, Sanitized, Scanned, ValidUtf8;
    ghost var s := buf[..len];
    var i, dirty := 0, false;
    ScanStart(s);
    while i < len
      invariant 0 <= i <= len && Scanned(buf[..len], s, i) && buf[len..] == old(buf[len..])
      invariant dirty <==> exists j :: 0 <= j < i && !Kept(s, j)
    {
      ScanHere(buf[..len], s, i);
      if buf[i] == 0 {
        ScanDone(buf[..len], s, i);
        ScanDoneAt(buf[..len], s, i);
        return -1;
      }
      ScanStep(buf[..len], s, i);
      var n := CheckAt(buf, i, len);
      if n > 0 {
        i := i + n;
      } else {
        ghost var b := buf[..len];
        buf[i] := QUESTION;
        assert buf[..len] == b[i := QUESTION];
        dirty, i := true, i + 1;
      }
    }
    ScanDone(buf[..len], s, i);
    ScanDoneAt(buf[..len], s, i);
    ValidIffKept(s);
    r := if dirty then 1 else 0;
  }

  lemma ScanStart(s: seq<bv8>)
    ensures Scanned(s, s, 0)
  {
  }

  lemma ScanHere(b: seq<bv8>, s: seq<bv8>, i: nat)
    requires i < |s| && Scanned(b, s, i)
    ensures |b| == |s| && b[i] == s[i]
  {
  }

  /** Without NUL bytes the sanitizer is the repair: valid, and unchanged by a second run, which then
      reports a valid buffer. */
  lemma SanitizedIsRepaired(s: seq<bv8>)
    requires NoNul(s)
    ensures Sanitized(s) == Repaired(s) && ValidUtf8(Sanitized(s)) && NoNul(Sanitized(s))
    ensures Sanitized(Sanitized(s)) == Sanitized(s) && Verdict(Sanitized(s)) == 0
  {
    var r := Repaired(s);
    assert Sanitized(s) == r;
    RepairedIsValid(s);
    RepairIdempotent(s);
    assert NoNul(r);
    assert Sanitized(r) == Repaired(r);
  }
}
