/** Facts about sequences that Dafny needs spelled out. */
module Sequences {

  lemma Assoc<T>(x: seq<T>, y: seq<T>, z: seq<T>)
    ensures (x + y) + z == x + (y + z)
  {
  }

  lemma MoveHead<T>(t: seq<T>, q: seq<T>)
    requires q != []
    ensures t + q == (t + [q[0]]) + q[1..]
  {
  }

  lemma Parts<T>(s: seq<T>, i: nat)
    requires i < |s|
    ensures s[..i] + [s[i]] + s[i + 1..] == s
  {
  }

  function Flatten<T>(ss: seq<seq<T>>): seq<T> {
    if ss == [] then [] else Flatten(ss[..|ss| - 1]) + ss[|ss| - 1]
  }

  lemma FlattenAppend<T>(ss: seq<seq<T>>, s: seq<T>)
    ensures Flatten(ss + [s]) == Flatten(ss) + s
  {
    assert (ss + [s])[..|ss + [s]| - 1] == ss;
  }

  lemma {:induction false} FlattenConcat<T>(a: seq<seq<T>>, b: seq<seq<T>>)
    ensures Flatten(a + b) == Flatten(a) + Flatten(b)
  {
    if b == [] {
      assert a + b == a;
    } else {
      hide Flatten;
      var b', s := b[..|b| - 1], b[|b| - 1];
      FlattenConcat(a, b');
      assert a + b == (a + b') + [s] && b == b' + [s];
      FlattenAppend(a + b', s);
      FlattenAppend(b', s);
      Assoc(Flatten(a), Flatten(b'), s);
    }
  }

  lemma FlattenAround<T>(a: seq<seq<T>>, s: seq<T>, b: seq<seq<T>>)
    ensures Flatten(a + [s] + b) == Flatten(a) + s + Flatten(b)
  {
    hide Flatten;
    FlattenConcat(a + [s], b);
    FlattenAppend(a, s);
  }

  /** Flattening splits at any position. */
  lemma FlattenSplit<T>(ss: seq<seq<T>>, i: nat)
    requires i < |ss|
    ensures Flatten(ss) == Flatten(ss[..i]) + ss[i] + Flatten(ss[i + 1..])
  {
    hide Flatten;
    FlattenAround(ss[..i], ss[i], ss[i + 1..]);
    Parts(ss, i);
  }

  lemma {:induction false} FlattenMember<T>(ss: seq<seq<T>>, j: nat) returns (i: nat)
    requires j < |Flatten(ss)|
    ensures i < |ss| && Flatten(ss)[j] in ss[i]
  {
    var init := ss[..|ss| - 1];
    if j < |Flatten(init)| {
      i := FlattenMember(init, j);
    } else {
      i := |ss| - 1;
    }
  }

  // Four regroupings of a pipeline a + (p + q + c) around one element x.

  lemma RegroupArrive<T>(a: seq<T>, p: seq<T>, q: seq<T>, c0: seq<T>, x: seq<T>, c1: seq<T>)
    ensures a + (p + q + (c0 + x + c1)) == (a + p + q + c0) + x + c1
  {
  }

  lemma RegroupLink<T>(a: seq<T>, p: seq<T>, q: seq<T>, c0: seq<T>, x: seq<T>, c1: seq<T>)
    ensures a + (p + q + (c0 + x + c1)) == (a + p + q) + c0 + x + c1
    ensures a + (p + (q + x) + (c0 + [] + c1)) == (a + p + q) + x + c0 + c1
  {
  }

  lemma RegroupTake<T>(a: seq<T>, p0: seq<T>, p1: seq<T>, q0: seq<T>, x: seq<T>, q1: seq<T>, c: seq<T>)
    ensures a + ((p0 + [] + p1) + (q0 + x + q1) + c) == (a + p0) + (p1 + q0) + x + (q1 + c)
    ensures a + ((p0 + x + p1) + (q0 + q1) + c) == (a + p0) + x + (p1 + q0) + (q1 + c)
  {
  }

  lemma RegroupProduce<T>(a: seq<T>, p0: seq<T>, x: seq<T>, p1: seq<T>, q: seq<T>, c: seq<T>)
    ensures a + ((p0 + x + p1) + q + c) == a + p0 + x + (p1 + q + c)
    ensures (a + x) + ((p0 + [] + p1) + q + c) == a + x + p0 + (p1 + q + c)
    ensures a + ((p0 + [] + p1) + q + c) == a + p0 + (p1 + q + c)
  {
  }
}
