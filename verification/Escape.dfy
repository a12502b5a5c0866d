/** The removal of NUL escapes from JSON text, and the whole repair of a payload before it is sent. */
module Escape {
  import opened Utf8Spec
  import opened Utf8

  /** A backslash, the letter u and four zero digits. */
  const ESCAPE: seq<bv8> := [0x5C, 0x75, 0x30, 0x30, 0x30, 0x30]

  /** An escape starts at k, before position p. */
  predicate EscapeAt(s: seq<bv8>, k: nat, p: nat)
    requires p <= |s|
  {
    k + 6 <= p && s[k] == 0x5C && s[k + 1] == 0x75 && s[k + 2] == 0x30 && s[k + 3] == 0x30 && s[k + 4] == 0x30 && s[k + 5] == 0x30
  }

  lemma EscapeIsSubstring(s: seq<bv8>, k: nat)
    requires k <= |s|
    ensures EscapeAt(s, k, |s|) <==> ESCAPE <= s[k..]
    ensures ESCAPE == [0x5C, 0x75, 0x30, 0x30, 0x30, 0x30]
  {
    var t := s[k..];
    if |t| >= 6 {
      assert t[0] == s[k] && t[1] == s[k + 1] && t[2] == s[k + 2] && t[3] == s[k + 3] && t[4] == s[k + 4] && t[5] == s[k + 5];
      assert ESCAPE <= t <==> t[..6] == ESCAPE;
    }
  }

  /** Byte j lies inside an escape of the first p bytes. */
  ghost predicate Escaped(s: seq<bv8>, p: nat, j: nat)
    requires p <= |s|
  {
    exists k :: 0 <= k <= j < k + 6 && EscapeAt(s, k, p)
  }

  /** Escapes do not overlap. */
  lemma EscapesApart(s: seq<bv8>, p: nat, k: nat, m: nat)
    requires p <= |s| && EscapeAt(s, k, p) && EscapeAt(s, m, p) && k < m
    ensures k + 6 <= m
  {
  }

  /** b is s with the escapes among the first p bytes that start before i turned into question marks. */
  ghost predicate Removed(b: seq<bv8>, s: seq<bv8>, p: nat, i: nat) {
    && |b| == |s| && p <= |s|
    && (forall j :: 0 <= j < |s| ==> b[j] == if j < i && Escaped(s, p, j) then QUESTION else s[j])
    && (forall k :: 0 <= k < i && EscapeAt(s, k, p) ==> k + 6 <= i)
  }

  /** Does an escape start at k? The comparison stops at the first difference, so it never reads past the
      terminating NUL. */
  method MatchAt(buf: array<bv8>, k: nat, ghost p: nat) returns (found: bool)
    requires k < p < buf.Length && buf[p] == 0
    ensures found <==> EscapeAt(buf[..], k, p)
  {
    var i := 0;
    while i < 6 && buf[k + i] == ESCAPE[i]
      invariant 0 <= i <= 6 && k + i <= p
      invariant forall j :: 0 <= j < i ==> buf[k + j] == ESCAPE[j]
    {
      i := i + 1;
    }
    found := i == 6;
    assert found ==> buf[k + 0] == ESCAPE[0] && buf[k + 1] == ESCAPE[1] && buf[k + 2] == ESCAPE[2]
                     && buf[k + 3] == ESCAPE[3] && buf[k + 4] == ESCAPE[4] && buf[k + 5] == ESCAPE[5];
  }

  /** strstr from position i: the first escape at or after i, or the position of the terminating NUL. */
  method FindEscape(buf: array<bv8>, i: nat, ghost p: nat) returns (k: nat, found: bool)
    requires i <= p < buf.Length && buf[p] == 0 && forall j :: i <= j < p ==> buf[j] != 0
    ensures i <= k <= p && (found <==> k < p)
    ensures found ==> EscapeAt(buf[..], k, p)
    ensures forall m :: i <= m < k ==> !EscapeAt(buf[..], m, p)
  {
    k := i;
    while buf[k] != 0
      invariant i <= k <= p
      invariant forall m :: i <= m < k ==> !EscapeAt(buf[..], m, p)
      decreases p - k
    {
      found := MatchAt(buf, k, p);
      if found {
        return;
      }
      k := k + 1;
    }
    found := false;
  }

  /** s with every escape of its first p bytes turned into question marks. */
  ghost function WithoutEscapes(s: seq<bv8>, p: nat): (r: seq<bv8>)
    requires p <= |s|
    ensures |r| == |s|
  {
    seq(|s|, j requires 0 <= j < |s| => if Escaped(s, p, j) then QUESTION else s[j])
  }

  /** Past position i, the buffer still has the escapes of s. */
  lemma EscapesAhead(b: seq<bv8>, s: seq<bv8>, p: nat, i: nat, k: nat)
    requires Removed(b, s, p, i) && i <= k
    ensures EscapeAt(b, k, p) <==> EscapeAt(s, k, p)
  {
    hide Escaped;
  }

  lemma RemoveStep(b: seq<bv8>, s: seq<bv8>, p: nat, i: nat, k: nat, b': seq<bv8>)
    requires Removed(b, s, p, i) && i <= k && EscapeAt(s, k, p)
    requires forall m :: i <= m < k ==> !EscapeAt(s, m, p)
    requires |b'| == |b| && forall j :: 0 <= j < |b| ==> b'[j] == if k <= j < k + 6 then QUESTION else b[j]
    ensures Removed(b', s, p, k + 6)
  {
    hide EscapeAt;
    forall m | 0 <= m < k + 6 && EscapeAt(s, m, p) ensures m + 6 <= k + 6 {
      if m > k {
        EscapesApart(s, p, k, m);
      }
    }
    forall j | 0 <= j < |s| ensures b'[j] == if j < k + 6 && Escaped(s, p, j) then QUESTION else s[j] {
      if i <= j < k {
        assert !Escaped(s, p, j);
      }
    }
  }

  lemma RemoveDone(b: seq<bv8>, s: seq<bv8>, p: nat, i: nat)
    requires Removed(b, s, p, i) && i <= p && forall m :: i <= m < p ==> !EscapeAt(s, m, p)
    ensures b == WithoutEscapes(s, p)
    ensures forall j :: 0 <= j < |s| ==> b[j] == if Escaped(s, p, j) then 0x3F else s[j]
  {
    hide EscapeAt;
    forall j | i <= j < |s| ensures !Escaped(s, p, j) {
      forall m | 0 <= m <= j < m + 6 ensures !EscapeAt(s, m, p) {
        EscapeBefore(s, m, p);
      }
    }
  }

  lemma EscapeBefore(s: seq<bv8>, m: nat, p: nat)
    requires p <= |s|
    ensures EscapeAt(s, m, p) ==> m + 6 <= p
  {
  }

  /** repair_null_escape: p is where the string in the buffer ends. */
  method RepairNullEscape(buf: array<bv8>, ghost p: nat) returns (r: int)
    requires p < buf.Length && buf[p] == 0 && forall j :: 0 <= j < p ==> buf[j] != 0
    modifies buf
    ensures buf[..] == WithoutEscapes(old(buf[..]), p)
    ensures forall j :: 0 <= j < buf.Length ==> buf[j] == if Escaped(old(buf[..]), p, j) then 0x3F else old(buf[..])[j]
    ensures r == if exists k: nat :: EscapeAt(old(buf[..]), k, p) then 1 else 0
  {
    hide EscapeAt, Escaped, WithoutEscapes;
    ghost var s := buf[..];
    var i, dirty := 0, false;
    while true
      invariant 0 <= i <= p && Removed(buf[..], s, p, i)
      invariant buf[p] == 0 && forall j :: i <= j < p ==> buf[j] != 0
      invariant dirty ==> exists k: nat :: EscapeAt(s, k, p)
      invariant !dirty ==> i == 0
      decreases p - i
    {
      ghost var b := buf[..];
      var k, found := FindEscape(buf, i, p);
      forall m | i <= m {
        EscapesAhead(b, s, p, i, m);
      }
      if !found {
        break;
      }
      EscapeBefore(s, k, p);
      FillSix(buf, k);
      RemoveStep(b, s, p, i, k, buf[..]);
      dirty, i := true, k + 6;
    }
    RemoveDone(buf[..], s, p, i);
    forall k: nat | EscapeAt(s, k, p) ensures k + 6 <= p {
      EscapeBefore(s, k, p);
    }
    r := if dirty then 1 else 0;
  }

  method FillSix(buf: array<bv8>, k: nat)
    requires k + 6 <= buf.Length
    modifies buf
    ensures forall j :: 0 <= j < buf.Length ==> buf[j] == if k <= j < k + 6 then QUESTION else old(buf[j])
  {
    forall j | k <= j < k + 6 {
      buf[j] := QUESTION;
    }
  }

  // ---- The whole repair of a payload ----

  /** The text sent for a payload: question marks inside its escapes and outside its characters. */
  ghost function CleanText(s: seq<bv8>): (c: seq<bv8>)
    ensures |c| == |s|
  {
    seq(|s|, j requires 0 <= j < |s| => if Escaped(s, |s|, j) || !Kept(s, j) then QUESTION else s[j])
  }

  lemma EscapedIsAscii(s: seq<bv8>, p: nat, j: nat)
    requires p <= |s| && j < |s| && Escaped(s, p, j)
    ensures 0 < s[j] <= 0x7F
  {
  }

  /** Changing ASCII bytes to other ASCII bytes moves no character. */
  lemma AsciiChange(s: seq<bv8>, e: seq<bv8>, i: nat)
    requires i < |s| == |e| && forall j :: 0 <= j < |s| ==> e[j] == s[j] || (e[j] <= 0x7F && s[j] <= 0x7F)
    ensures CharLen(e, i) == CharLen(s, i)
  {
  }

  /** Removing the escapes keeps the same bytes. */
  lemma KeptWithoutEscapes(s: seq<bv8>, j: nat)
    requires j < |s|
    ensures Kept(WithoutEscapes(s, |s|), j) <==> Kept(s, j)
  {
    hide CharLen, Escaped;
    var e := WithoutEscapes(s, |s|);
    forall i | 0 <= i < |s| && e[i] != s[i] ensures e[i] <= 0x7F && s[i] <= 0x7F {
      EscapedIsAscii(s, |s|, i);
    }
    forall i | 0 <= i < |s| ensures CharLen(e, i) == CharLen(s, i) {
      AsciiChange(s, e, i);
    }
  }

  lemma RepairAfterEscapes(s: seq<bv8>)
    ensures Repaired(WithoutEscapes(s, |s|)) == CleanText(s)
  {
    hide Kept, Escaped;
    var e := WithoutEscapes(s, |s|);
    forall j | 0 <= j < |s| ensures Repaired(e)[j] == CleanText(s)[j] {
      KeptWithoutEscapes(s, j);
    }
  }

  /** No escape is left, whatever is repaired afterwards. */
  lemma NoEscapeLeft(s: seq<bv8>, k: nat)
    ensures !EscapeAt(CleanText(s), k, |s|)
  {
    if EscapeAt(s, k, |s|) {
      assert Escaped(s, |s|, k);
      assert CleanText(s)[k] == QUESTION;
    } else {
      assert forall j :: 0 <= j < |s| ==> CleanText(s)[j] == s[j] || CleanText(s)[j] == QUESTION;
    }
  }

  lemma CleanChanges(s: seq<bv8>, j: nat)
    requires j < |s| && CleanText(s)[j] != s[j]
    ensures Escaped(s, |s|, j) || s[j] >= 0x80
  {
    if s[j] <= 0x7F {
      AsciiKept(s, j);
    }
  }

  /** What is sent for a payload without NUL bytes is valid UTF-8 without NUL bytes and without escapes,
      has the payload's length, and differs from it only inside escapes and at non-ASCII bytes. */
  lemma CleanIsClean(s: seq<bv8>)
    requires NoNul(s)
    ensures var c := CleanText(s);
            && ValidUtf8(c) && NoNul(c) && |c| == |s|
            && (forall k :: 0 <= k <= |c| ==> !(ESCAPE <= c[k..]))
            && (forall j :: 0 <= j < |s| && c[j] != s[j] ==> c[j] == QUESTION && (Escaped(s, |s|, j) || s[j] >= 0x80))
            && (forall j :: 0 <= j < |s| ==> c[j] == if Escaped(s, |s|, j) || !Kept(s, j) then 0x3F else s[j])
  {
    hide Kept, Escaped, EscapeAt;
    var c := CleanText(s);
    RepairAfterEscapes(s);
    RepairedIsValid(WithoutEscapes(s, |s|));
    forall k | 0 <= k <= |c| ensures !(ESCAPE <= c[k..]) {
      NoEscapeLeft(s, k);
      EscapeIsSubstring(c, k);
    }
    forall j | 0 <= j < |s| && c[j] != s[j] ensures c[j] == QUESTION && (Escaped(s, |s|, j) || s[j] >= 0x80) {
      CleanChanges(s, j);
    }
  }

  /** Cleaning text that is already clean changes nothing. */
  lemma CleanIdempotent(s: seq<bv8>)
    requires NoNul(s)
    ensures CleanText(CleanText(s)) == CleanText(s)
  {
    hide Kept, EscapeAt;
    var c := CleanText(s);
    CleanIsClean(s);
    ValidIffKept(c);
    forall k: nat ensures !EscapeAt(c, k, |c|) {
      NoEscapeLeft(s, k);
    }
  }

  /** Removing escapes neither adds nor removes a NUL byte. */
  lemma EscapesKeepNuls(s: seq<bv8>, p: nat, len: nat)
    requires p <= |s| && len <= |s|
    ensures NoNul(WithoutEscapes(s, p)[..len]) <==> NoNul(s[..len])
    ensures WithoutEscapes(s, p)[len..] == s[len..] || p > len
  {
    hide EscapeAt, Escaped;
    var e := WithoutEscapes(s, p);
    forall j | 0 <= j < |s| && e[j] != s[j] ensures e[j] != 0 && s[j] != 0 && j < p {
      EscapedIsAscii(s, p, j);
      EscapedBefore(s, p, j);
    }
    assert forall j :: 0 <= j < len ==> e[..len][j] == e[j] && s[..len][j] == s[j];
  }

  lemma EscapedBefore(s: seq<bv8>, p: nat, j: nat)
    requires p <= |s| && j < |s| && Escaped(s, p, j)
    ensures j < p
  {
  }

  /** The escapes before position n are those of the first n bytes taken alone. */
  lemma EscapesOfPrefix(s: seq<bv8>, n: nat)
    requires n <= |s|
    ensures WithoutEscapes(s, n)[..n] == WithoutEscapes(s[..n], n)
  {
    hide Escaped;
    forall j | 0 <= j < n ensures Escaped(s, n, j) <==> Escaped(s[..n], n, j) {
      EscapedOfPrefix(s, n, j);
    }
  }

  lemma EscapedOfPrefix(s: seq<bv8>, n: nat, j: nat)
    requires n <= |s|
    ensures Escaped(s, n, j) <==> Escaped(s[..n], n, j)
  {
    hide EscapeAt;
    forall k | 0 <= k <= j ensures EscapeAt(s, k, n) <==> EscapeAt(s[..n], k, n) {
      EscapeAtPrefix(s, n, k);
    }
  }

  lemma EscapeAtPrefix(s: seq<bv8>, n: nat, k: nat)
    requires n <= |s|
    ensures EscapeAt(s, k, n) <==> EscapeAt(s[..n], k, n)
  {
  }

  /** The text branch at the start of postgres_producer_produce: a payload without its terminating NUL is
      refused untouched, one with a NUL inside is discarded. */
  method RepairPayload(buf: array<bv8>, len: nat) returns (accepted: bool)
    requires len < buf.Length
    modifies buf
    ensures accepted <==> old(buf[len]) == 0 && NoNul(old(buf[..len]))
    ensures old(buf[len]) != 0 ==> buf[..] == old(buf[..])
    ensures accepted ==> buf[..len] == CleanText(old(buf[..len])) && buf[len..] == old(buf[len..])
  {
    hide Kept, EscapeAt, Escaped, WithoutEscapes, Repaired, CleanText, ValidUtf8;
    if buf[len] != 0 {
      return false;
    }
    ghost var s := buf[..];
    ghost var p := FirstNul(s, 0);
    assert s[len] == 0;
    var r := RepairNullEscape(buf, p);
    EscapesKeepNuls(s, p, len);
    ghost var e := buf[..len];
    var v := SanitizeUtf8(buf, len);
    accepted := v != -1;
    if accepted {
      assert p == len by {
        assert forall j :: 0 <= j < len ==> s[..len][j] == s[j];
      }
      EscapesOfPrefix(s, len);
      SanitizedIsRepaired(e);
      RepairAfterEscapes(s[..len]);
    }
  }
}
