/** Finite sets, and the kernel's linked lists seen as sequences. */
module Collections {

  datatype Option<T> = None | Some(value: T)

  lemma SubsetSize<T>(a: set<T>, b: set<T>)
    requires a <= b
    ensures |a| <= |b|
  {
    assert b == a + (b - a);
  }

  ghost function Interval(lo: nat, hi: nat): (s: set<nat>)
    ensures forall p: nat :: p in s <==> lo <= p < hi
    ensures lo <= hi ==> |s| == hi - lo
  {
    if hi <= lo then {} else Interval(lo, hi - 1) + {hi - 1}
  }

  ghost predicate NoDup(s: seq<nat>)
  {
    forall i, j :: 0 <= i < j < |s| ==> s[i] != s[j]
  }

  function ToSet(q: seq<nat>): set<nat>
  {
    set x | x in q
  }

  lemma {:induction false} QueueSize(q: seq<nat>)
    requires NoDup(q)
    ensures |ToSet(q)| == |q|
  {
    if q == [] {
      assert ToSet(q) == {};
    } else {
      QueueSize(q[1..]);
      assert ToSet(q) == ToSet(q[1..]) + {q[0]};
      assert q[0] !in q[1..];
    }
  }

  /** The rest of a list without repetition no longer holds its first element. */
  lemma Dequeue(q: seq<nat>)
    requires q != [] && NoDup(q)
    ensures NoDup(q[1..]) && q[0] !in q[1..]
    ensures forall x :: x in q[1..] ==> x in q
    ensures forall x :: x in q ==> x == q[0] || x in q[1..]
  {
    assert forall x :: x in q[1..] ==> exists i :: 1 <= i < |q| && q[i] == x;
  }

  /** `list_unlink` of the entry y. */
  function Without(s: seq<nat>, y: nat): (r: seq<nat>)
    ensures forall z :: z in r ==> z in s
    ensures forall z :: z in s && z != y ==> z in r
    ensures NoDup(s) ==> NoDup(r) && y !in r
    ensures y in s ==> |r| == |s| - 1
  {
    if s == [] then []
    else if s[0] == y then s[1..]
    else
      var r := Without(s[1..], y);
      assert NoDup(s) ==> NoDup(s[1..]) && s[0] !in s[1..] && s[0] !in r;
      [s[0]] + r
  }

  /** Three lists without repetition that share no entry. */
  ghost predicate Apart(a: seq<nat>, b: seq<nat>, c: seq<nat>)
  {
    && NoDup(a) && NoDup(b) && NoDup(c)
    && (forall x :: x in a ==> x !in b && x !in c)
    && (forall x :: x in b ==> x !in c)
  }

  lemma ApartRotate(a: seq<nat>, b: seq<nat>, c: seq<nat>)
    requires Apart(a, b, c)
    ensures Apart(b, c, a) && Apart(c, a, b)
  {
  }

  lemma ApartAdd(a: seq<nat>, b: seq<nat>, c: seq<nat>, x: nat)
    requires Apart(a, b, c) && x !in a && x !in b && x !in c
    ensures Apart(a + [x], b, c) && Apart([x] + a, b, c)
  {
  }

  lemma ApartFirst(a: seq<nat>, b: seq<nat>, c: seq<nat>)
    requires Apart(a, b, c) && a != []
    ensures Apart(a[1..], b, c) && a[0] !in a[1..] && a[0] !in b && a[0] !in c
  {
    Dequeue(a);
    assert a[0] in a;
  }

  lemma ApartCut(a: seq<nat>, b: seq<nat>, c: seq<nat>, x: nat)
    requires Apart(a, b, c) && x in a
    ensures Apart(Without(a, x), b, c) && x !in Without(a, x) && x !in b && x !in c
  {
  }
}
