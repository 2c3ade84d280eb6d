// What linked_ptr promises: which pointers share an object, and when it is deleted. Pointers
// are values of any type here; the module LinkedPtr does the same with next pointers.

module Ownership {
  import opened Helpers

  // The identity of an object. When the allocator hands out the address of a deleted object
  // again, the new object is another one here.
  type Address = nat
  const NULL: Address := 0

  datatype State<P> = State(
    ring: map<P, seq<P>>,     // every live pointer, with the circle it is on
    value: map<P, Address>,   // value_
    captured: seq<Address>,   // the non-null raw pointers taken over, in order
    deleted: seq<Address>     // the objects deleted, in order
  )

  function Empty<P>(): State<P> {
    State(map[], map[], [], [])
  }

  function Index<T(==)>(s: seq<T>, x: T): (i: nat)
    requires x in s
    ensures i < |s| && s[i] == x
  {
    if s[0] == x then 0 else 1 + Index(s[1..], x)
  }

  /** The circle r with p put in right before x. */
  function InsertBefore<P(==)>(r: seq<P>, x: P, p: P): (s: seq<P>)
    requires x in r
    ensures |s| == |r| + 1
  {
    var k := Index(r, x);
    r[..k] + [p] + r[k..]
  }

  function Without<P(==)>(r: seq<P>, p: P): (s: seq<P>)
    requires p in r
    ensures |s| == |r| - 1
  {
    var k := Index(r, p);
    r[..k] + r[k + 1..]
  }

  lemma WithoutMembers<P>(r: seq<P>, p: P)
    requires p in r && Distinct(r)
    ensures Distinct(Without(r, p))
    ensures forall q :: q in Without(r, p) <==> q in r && q != p
  {
  }

  lemma InsertBeforeMembers<P>(r: seq<P>, x: P, p: P)
    requires x in r && p !in r && Distinct(r)
    ensures Distinct(InsertBefore(r, x, p))
    ensures forall q :: q in InsertBefore(r, x, p) <==> q in r || q == p
  {
  }

  /** q is on the circle of p and agrees with p on it and on the value. */
  ghost predicate CoOwner<P>(s: State<P>, p: P, q: P)
    requires p in s.ring && p in s.value
  {
    q in s.ring && q in s.value && s.ring[q] == s.ring[p] && s.value[q] == s.value[p]
  }

  ghost predicate OnOneCircle<P>(s: State<P>, p: P)
    requires p in s.ring
  {
    && p in s.value
    && p in s.ring[p] && Distinct(s.ring[p])
    && (forall q | q in s.ring[p] :: CoOwner(s, p, q))
    && (s.value[p] == NULL ==> |s.ring[p]| == 1)
  }

  /** Every pointer is on exactly one circle, with co-owners that agree on it and on the value;
      null pointers are on circles of their own. */
  ghost predicate WellFormed<P>(s: State<P>) {
    && s.value.Keys == s.ring.Keys
    && forall p | p in s.ring :: OnOneCircle(s, p)
  }

  // ---- the private operations ----

  /** `depart`: p leaves its circle; the last one out deletes the object. */
  function Depart<P(==)>(s: State<P>, p: P): State<P>
    requires p in s.ring && p in s.value
  {
    s.(ring := map q | q in s.ring && q != p :: if p in s.ring[q] then Without(s.ring[q], p) else s.ring[q],
       value := s.value - {p},
       deleted := if |s.ring[p]| == 1 && s.value[p] != NULL then s.deleted + [s.value[p]] else s.deleted)
  }

  /** `capture` */
  function Capture<P(==)>(s: State<P>, p: P, raw: Address): State<P> {
    s.(ring := s.ring[p := [p]], value := s.value[p := raw],
       captured := if raw != NULL then s.captured + [raw] else s.captured)
  }

  /** `copy`: p joins the circle of src, if src points to anything. */
  function Copy<P(==)>(s: State<P>, p: P, src: P): State<P>
    requires src in s.ring && src in s.value && src in s.ring[src]
  {
    if s.value[src] == NULL then
      s.(ring := s.ring[p := [p]], value := s.value[p := NULL])
    else
      s.(ring := map q | q in s.ring.Keys + {p} ::
                   if q == p || q in s.ring[src] then InsertBefore(s.ring[src], src, p) else s.ring[q],
         value := s.value[p := s.value[src]])
  }

  lemma DepartKeepsWellFormed<P>(s: State<P>, p: P)
    requires WellFormed(s) && p in s.ring
    ensures WellFormed(Depart(s, p))
  {
    var t := Depart(s, p);
    forall q | q in t.ring
      ensures OnOneCircle(t, q)
    {
      assert OnOneCircle(s, q);
      if p in s.ring[q] {
        WithoutMembers(s.ring[q], p);
        assert CoOwner(s, q, p);
      }
      forall x | x in t.ring[q]
        ensures CoOwner(t, q, x)
      {
        assert x in s.ring[q] && x != p;
        assert CoOwner(s, q, x);
      }
    }
  }

  /** p is on its own circle only. */
  lemma OnNoOther<P>(s: State<P>, p: P)
    requires WellFormed(s) && p in s.ring
    ensures forall q | q in s.ring && q in s.value && p in s.ring[q] ::
              s.ring[q] == s.ring[p] && s.value[q] == s.value[p] && q in s.ring[p]
  {
    forall q | q in s.ring && p in s.ring[q]
      ensures s.ring[q] == s.ring[p] && s.value[q] == s.value[p] && q in s.ring[p]
    {
      assert OnOneCircle(s, q) && CoOwner(s, q, p);
    }
  }

  /** p becomes a circle of its own. */
  lemma AloneKeepsWellFormed<P>(s: State<P>, p: P, a: Address)
    requires WellFormed(s) && p !in s.ring
    ensures WellFormed(s.(ring := s.ring[p := [p]], value := s.value[p := a]))
  {
  }

  lemma CaptureKeepsWellFormed<P>(s: State<P>, p: P, raw: Address)
    requires WellFormed(s) && p !in s.ring
    ensures WellFormed(Capture(s, p, raw))
  {
  }

  lemma JoinedCircle<P>(s: State<P>, p: P, src: P, q: P)
    requires WellFormed(s) && p !in s.ring && src in s.ring && OnOneCircle(s, src) && s.value[src] != NULL
    requires q == p || q in s.ring[src]
    ensures q in Copy(s, p, src).ring && OnOneCircle(Copy(s, p, src), q)
  {
    var t, r := Copy(s, p, src), s.ring[src];
    assert forall x | x in r :: CoOwner(s, src, x);
    InsertBeforeMembers(r, src, p);
    forall x | x in t.ring[q]
      ensures CoOwner(t, q, x)
    {
      assert x == p || x in r;
    }
  }

  lemma OtherCircle<P>(s: State<P>, p: P, src: P, q: P)
    requires WellFormed(s) && p !in s.ring && src in s.ring && OnOneCircle(s, src) && s.value[src] != NULL
    requires q in s.ring && q !in s.ring[src]
    ensures q in Copy(s, p, src).ring && OnOneCircle(Copy(s, p, src), q)
  {
  }

  lemma CopyKeepsWellFormed<P>(s: State<P>, p: P, src: P)
    requires WellFormed(s) && p !in s.ring && src in s.ring
    ensures src in s.value && src in s.ring[src] && WellFormed(Copy(s, p, src))
  {
    assert OnOneCircle(s, src);
    if s.value[src] == NULL {
      AloneKeepsWellFormed(s, p, NULL);
    } else {
      forall q | q in Copy(s, p, src).ring
        ensures OnOneCircle(Copy(s, p, src), q)
      {
        if q == p || q in s.ring[src] {
          JoinedCircle(s, p, src, q);
        } else {
          OtherCircle(s, p, src, q);
        }
      }
    }
  }

  // ---- the public operations, and runs of them ----

  datatype Op<P> =
    | Construct(p: P, raw: Address)
    | CopyConstruct(p: P, src: P)
    | Assign(p: P, src: P)
    | Reset(p: P, raw: Address)
    | Destroy(p: P)

  /** Only dead pointers are constructed, only live ones used. */
  predicate Legal<P(==)>(s: State<P>, op: Op<P>) {
    match op
    case Construct(p, _) => p !in s.ring
    case CopyConstruct(p, src) => p !in s.ring && src in s.ring
    case Assign(p, src) => p in s.ring && src in s.ring
    case Reset(p, _) => p in s.ring
    case Destroy(p) => p in s.ring
  }

  ghost function Apply<P>(s: State<P>, op: Op<P>): State<P>
    requires WellFormed(s) && Legal(s, op)
  {
    match op
    case Construct(p, raw) => Capture(s, p, raw)
    case CopyConstruct(p, src) => Copy(s, p, src)
    case Assign(p, src) => if p == src then s else DepartKeepsWellFormed(s, p); Copy(Depart(s, p), p, src)
    case Reset(p, raw) => Capture(Depart(s, p), p, raw)
    case Destroy(p) => Depart(s, p)
  }

  lemma ApplyKeepsWellFormed<P>(s: State<P>, op: Op<P>)
    requires WellFormed(s) && Legal(s, op)
    ensures WellFormed(Apply(s, op))
  {
    match op
    case Construct(p, raw) => CaptureKeepsWellFormed(s, p, raw);
    case CopyConstruct(p, src) => CopyKeepsWellFormed(s, p, src);
    case Assign(p, src) =>
      if p != src {
        DepartKeepsWellFormed(s, p);
        CopyKeepsWellFormed(Depart(s, p), p, src);
      }
    case Reset(p, raw) =>
      DepartKeepsWellFormed(s, p);
      CaptureKeepsWellFormed(Depart(s, p), p, raw);
    case Destroy(p) => DepartKeepsWellFormed(s, p);
  }

  /** After `p = src`, or construction of p from src: p has the object of src and is on its
      circle, right before it; or is null and alone, as src is null. */
  ghost predicate HasJoined<P>(t: State<P>, p: P, src: P, a: Address) {
    && p in t.ring && p in t.value && src in t.ring && src in t.value
    && t.value[p] == a == t.value[src]
    && if a == NULL then t.ring[p] == [p]
       else exists k :: Succeeds(t.ring[src], k, p, src)
  }

  /** p at position k of r, and x behind it */
  ghost predicate Succeeds<P>(r: seq<P>, k: int, p: P, x: P) {
    0 <= k < |r| - 1 && r[k] == p && r[k + 1] == x
  }

  ghost predicate Owns<P>(t: State<P>, p: P, a: Address) {
    p in t.ring && p in t.value && t.value[p] == a && t.ring[p] == [p]
  }

  /** Whatever happens to p, the other pointers keep their values and one another. */
  ghost predicate OthersKept<P>(s: State<P>, t: State<P>, p: P) {
    && t.ring.Keys - {p} == s.ring.Keys - {p} && t.value.Keys == t.ring.Keys && s.value.Keys == s.ring.Keys
    && (forall x | x in s.ring.Keys - {p} :: x in t.ring.Keys - {p} && t.value[x] == s.value[x])
    && (forall x | x in s.ring.Keys - {p} ::
          x in t.ring.Keys - {p} && Members(t.ring[x]) - {p} == Members(s.ring[x]) - {p})
  }

  ghost function Members<P>(r: seq<P>): set<P> {
    set x | x in r
  }

  lemma DepartKeepsOthers<P>(s: State<P>, p: P)
    requires WellFormed(s) && p in s.ring
    ensures p !in Depart(s, p).ring && OthersKept(s, Depart(s, p), p)
  {
    var t := Depart(s, p);
    forall x | x in s.ring && x != p
      ensures Members(t.ring[x]) - {p} == Members(s.ring[x]) - {p}
    {
      assert OnOneCircle(s, x);
      if p in s.ring[x] {
        WithoutMembers(s.ring[x], p);
      }
    }
  }

  lemma CaptureMeans<P>(s: State<P>, p: P, raw: Address)
    requires WellFormed(s) && p !in s.ring
    ensures Owns(Capture(s, p, raw), p, raw) && OthersKept(s, Capture(s, p, raw), p)
  {
  }

  lemma MembersInserted<P>(r: seq<P>, x: P, p: P)
    requires x in r && p !in r
    ensures Members(InsertBefore(r, x, p)) == Members(r) + {p}
  {
    var k := Index(r, x);
    assert r == r[..k] + r[k..];
    assert Members(r) == Members(r[..k]) + Members(r[k..]);
    assert Members(r[..k] + [p] + r[k..]) == Members(r[..k]) + {p} + Members(r[k..]);
  }

  lemma JoinKeepsOthers<P>(s: State<P>, p: P, src: P)
    requires WellFormed(s) && p !in s.ring && src in s.ring && OnOneCircle(s, src) && s.value[src] != NULL
    ensures OthersKept(s, Copy(s, p, src), p)
  {
    var t, r := Copy(s, p, src), s.ring[src];
    assert p !in r by {
      assert p in r ==> CoOwner(s, src, p);
    }
    MembersInserted(r, src, p);
    forall x | x in s.ring.Keys - {p}
      ensures x in t.ring && Members(t.ring[x]) - {p} == Members(s.ring[x]) - {p}
    {
      assert x in r ==> CoOwner(s, src, x) && t.ring[x] == InsertBefore(r, src, p);
    }
  }

  lemma CopyMeans<P>(s: State<P>, p: P, src: P)
    requires WellFormed(s) && p !in s.ring && src in s.ring && OnOneCircle(s, src)
    ensures HasJoined(Copy(s, p, src), p, src, s.value[src]) && OthersKept(s, Copy(s, p, src), p)
  {
    var t, r := Copy(s, p, src), s.ring[src];
    if s.value[src] != NULL {
      JoinKeepsOthers(s, p, src);
      assert t.ring[src] == InsertBefore(r, src, p);
      assert Succeeds(t.ring[src], Index(r, src), p, src);
    }
  }

  /** What each operation leaves behind, in any state: in p, on its circle, and everywhere else. */
  lemma ApplyMeans<P>(s: State<P>, op: Op<P>)
    requires WellFormed(s) && Legal(s, op)
    ensures var t := Apply(s, op);
            && OthersKept(s, t, op.p)
            && match op
               case Construct(p, raw) => Owns(t, p, raw)
               case CopyConstruct(p, src) => HasJoined(t, p, src, s.value[src])
               case Assign(p, src) => if p == src then t == s else HasJoined(t, p, src, s.value[src])
               case Reset(p, raw) => Owns(t, p, raw)
               case Destroy(p) => p !in t.ring
  {
    match op
    case Construct(p, raw) => CaptureMeans(s, p, raw);
    case CopyConstruct(p, src) =>
      assert OnOneCircle(s, src);
      CopyMeans(s, p, src);
    case Assign(p, src) =>
      if p != src {
        DepartKeepsWellFormed(s, p);
        DepartKeepsOthers(s, p);
        assert OnOneCircle(Depart(s, p), src);
        CopyMeans(Depart(s, p), p, src);
      }
    case Reset(p, raw) =>
      DepartKeepsWellFormed(s, p);
      DepartKeepsOthers(s, p);
      CaptureMeans(Depart(s, p), p, raw);
    case Destroy(p) => DepartKeepsOthers(s, p);
  }

  /** The objects some live pointer points to. */
  function Owned<P>(s: State<P>): set<Address> {
    set p | p in s.value && s.value[p] != NULL :: s.value[p]
  }

  /** The promise, as long as no raw pointer is captured twice: pointers with the same object
      are on the same circle; the captured objects are the owned ones and the deleted ones, and
      none is both; and nothing is deleted twice. */
  ghost predicate Sound<P>(s: State<P>) {
    WellFormed(s) && SharersShareCircle(s) && Accounted(Owned(s), s.captured, s.deleted)
  }

  ghost predicate SharersShareCircle<P>(s: State<P>)
    requires s.value.Keys == s.ring.Keys
  {
    forall p, q | p in s.value && q in s.value && s.value[p] == s.value[q] != NULL :: q in s.ring[p]
  }

  ghost predicate Accounted(owned: set<Address>, captured: seq<Address>, deleted: seq<Address>) {
    && (forall a :: a in captured <==> a in owned || a in deleted)
    && (forall a | a in deleted :: a !in owned)
    && Distinct(deleted)
    && NULL !in captured
  }

  /** An object goes exactly when the last of its owners leaves. */
  lemma DepartDeletesLast<P>(s: State<P>, p: P)
    requires Sound(s) && p in s.ring
    ensures Sound(Depart(s, p))
    ensures var t := Depart(s, p);
            && t.captured == s.captured
            && (if s.value[p] in Owned(s) && s.value[p] !in Owned(t) then t.deleted == s.deleted + [s.value[p]]
                else t.deleted == s.deleted)
            && Owned(s) - {s.value[p]} <= Owned(t) <= Owned(s)
  {
    var t := Depart(s, p);
    DepartKeepsWellFormed(s, p);
    var a := s.value[p];
    forall b | b in Owned(s) && b != a
      ensures b in Owned(t)
    {
      var q :| q in s.value && s.value[q] == b;
      assert q in t.value && t.value[q] == b;
    }
    forall b | b in Owned(t)
      ensures b in Owned(s)
    {
      var q :| q in t.value && t.value[q] == b;
      assert q in s.value && s.value[q] == b;
    }
    if a != NULL {
      assert a in Owned(s);
      if |s.ring[p]| == 1 {
        LastOwner(s, p);
      } else {
        var q := Other(s.ring[p], p);
        assert q in t.value && t.value[q] == a;
      }
    }
    forall x, y | x in t.value && y in t.value && t.value[x] == t.value[y] != NULL
      ensures y in t.ring[x]
    {
      assert y in s.ring[x];
      if p in s.ring[x] {
        WithoutMembers(s.ring[x], p);
      }
    }
  }

  lemma LastOwner<P>(s: State<P>, p: P)
    requires Sound(s) && p in s.ring && s.value[p] != NULL && |s.ring[p]| == 1
    ensures forall q | q in s.value && s.value[q] == s.value[p] :: q == p
    ensures s.value[p] !in Owned(Depart(s, p))
  {
  }

  lemma Other<P>(r: seq<P>, p: P) returns (q: P)
    requires |r| > 1 && Distinct(r)
    ensures q in r && q != p
  {
    q := if r[0] == p then r[1] else r[0];
  }

  lemma CaptureKeepsSound<P>(s: State<P>, p: P, raw: Address)
    requires Sound(s) && p !in s.ring && raw !in s.captured
    ensures Sound(Capture(s, p, raw))
    ensures Owned(Capture(s, p, raw)) == Owned(s) + (if raw == NULL then {} else {raw})
  {
    var t := Capture(s, p, raw);
    CaptureKeepsWellFormed(s, p, raw);
    OwnedUpdate(s.value, p, raw);
    assert Owned(t) == Owned(s.(value := t.value));
  }

  lemma OwnedUpdate<P>(value: map<P, Address>, p: P, a: Address)
    requires p !in value
    ensures var s: State<P> := Empty().(value := value);
            Owned(s.(value := value[p := a])) == Owned(s) + (if a == NULL then {} else {a})
  {
    var t := value[p := a];
    assert forall q | q in value :: q in t && t[q] == value[q];
    assert p in t && t[p] == a;
  }

  lemma CopyKeepsCircles<P>(s: State<P>, p: P, src: P)
    requires Sound(s) && p !in s.ring && src in s.ring && OnOneCircle(s, src)
    ensures var t := Copy(s, p, src);
            t.value.Keys == t.ring.Keys && SharersShareCircle(t)
  {
    var t := Copy(s, p, src);
    if s.value[src] != NULL {
      InsertBeforeMembers(s.ring[src], src, p);
      assert forall x | x in s.ring[src] :: CoOwner(s, src, x);
    }
  }

  lemma CopyKeepsSound<P>(s: State<P>, p: P, src: P)
    requires Sound(s) && p !in s.ring && src in s.ring
    ensures src in s.value && src in s.ring[src]
    ensures Sound(Copy(s, p, src))
    ensures Owned(Copy(s, p, src)) == Owned(s)
  {
    var t := Copy(s, p, src);
    CopyKeepsWellFormed(s, p, src);
    CopyKeepsCircles(s, p, src);
    OwnedUpdate(s.value, p, s.value[src]);
    assert Owned(t) == Owned(s.(value := t.value));
    assert s.value[src] != NULL ==> s.value[src] in Owned(s);
  }

  lemma OwnedAlone<P>(s: State<P>, p: P)
    requires p in s.value
    ensures s.value[p] != NULL ==> s.value[p] in Owned(s)
  {
  }

  // ---- the promise, over whole runs ----

  /** One operation keeps the promise if what it captures is new; and it deletes exactly what
      had an owner before and has none after, once. */
  lemma ApplyKeepsSound<P>(s: State<P>, op: Op<P>)
    requires Sound(s) && Legal(s, op) && Distinct(Apply(s, op).captured)
    ensures var t := Apply(s, op);
            && Sound(t)
            && s.captured <= t.captured && s.deleted <= t.deleted && |t.deleted| <= |s.deleted| + 1
            && forall a :: a in t.deleted && a !in s.deleted <==> a in Owned(s) && a !in Owned(t)
  {
    match op
    case Construct(p, raw) =>
      FreshCapture(s, p, raw);
      CaptureKeepsSound(s, p, raw);
    case CopyConstruct(p, src) => CopyKeepsSound(s, p, src);
    case Assign(p, src) =>
      if p != src {
        DepartDeletesLast(s, p);
        var t := Depart(s, p);
        OwnedAlone(t, src);
        CopyKeepsSound(t, p, src);
      }
    case Reset(p, raw) =>
      DepartDeletesLast(s, p);
      FreshCapture(Depart(s, p), p, raw);
      CaptureKeepsSound(Depart(s, p), p, raw);
    case Destroy(p) => DepartDeletesLast(s, p);
  }

  lemma FreshCapture<P>(s: State<P>, p: P, raw: Address)
    requires Distinct(Capture(s, p, raw).captured) && NULL !in s.captured
    ensures raw !in s.captured
  {
    if raw != NULL {
      var c := Capture(s, p, raw).captured;
      assert c == s.captured + [raw];
      assert forall i | 0 <= i < |s.captured| :: c[i] == s.captured[i] && c[i] != c[|s.captured|];
    }
  }

  /** A run of any legal operations whatever from no pointers at all. */
  ghost predicate IsRun<P>(states: seq<State<P>>, ops: seq<Op<P>>) {
    && |states| == |ops| + 1 && states[0] == Empty()
    && forall i | 0 <= i < |ops| :: IsStep(states[i], ops[i], states[i + 1])
  }

  /** Operations are defined on well-formed states; that no other is ever met is
      RunKeepsWellFormed. */
  ghost predicate IsStep<P>(s: State<P>, op: Op<P>, t: State<P>) {
    WellFormed(s) ==> Legal(s, op) && t == Apply(s, op)
  }

  /** Every pointer is on exactly one well-formed circle at every point of every run, captured
      twice or not. */
  lemma {:induction false} RunKeepsWellFormed<P>(states: seq<State<P>>, ops: seq<Op<P>>, i: nat)
    requires IsRun(states, ops) && i <= |ops|
    ensures WellFormed(states[i])
  {
    if i > 0 {
      RunKeepsWellFormed(states, ops, i - 1);
      assert IsStep(states[i - 1], ops[i - 1], states[i - 1 + 1]);
      ApplyKeepsWellFormed(states[i - 1], ops[i - 1]);
    }
  }

  /** The promise holds at every point of every run that captures no raw pointer twice: sharing
      is being on one circle, an object lives while its circle has a member, and every object
      that has lost its circle has been deleted exactly once. */
  lemma {:induction false} RunIsSound<P>(states: seq<State<P>>, ops: seq<Op<P>>, i: nat)
    requires IsRun(states, ops) && i <= |ops|
    requires Distinct(states[i].captured)
    ensures Sound(states[i])
  {
    if i > 0 {
      var s, op := states[i - 1], ops[i - 1];
      RunKeepsWellFormed(states, ops, i - 1);
      assert IsStep(s, op, states[i - 1 + 1]);
      CapturedGrows(s, op);
      assert forall k | 0 <= k < |s.captured| :: states[i].captured[k] == s.captured[k];
      RunIsSound(states, ops, i - 1);
      ApplyKeepsSound(s, op);
    }
  }

  lemma CapturedGrows<P>(s: State<P>, op: Op<P>)
    requires WellFormed(s) && Legal(s, op)
    ensures s.captured <= Apply(s, op).captured
  {
  }

  /** What the promise says of two pointers and of one object. */
  lemma SoundMeans<P>(s: State<P>, p: P, q: P, a: Address)
    requires Sound(s) && p in s.ring && q in s.ring
    ensures s.value[p] != NULL && s.value[q] != NULL ==> (s.value[p] == s.value[q] <==> q in s.ring[p])
    ensures a in s.captured && a !in s.deleted <==> exists x | x in s.ring :: s.value[x] == a != NULL
    ensures a in s.deleted ==> multiset(s.deleted)[a] == 1
  {
    assert OnOneCircle(s, p);
    if q in s.ring[p] {
      assert CoOwner(s, p, q);
    }
    if a in s.captured && a !in s.deleted {
      assert a in Owned(s);
    }
    if a in s.deleted {
      OccursOnce(s.deleted, a);
    }
  }

  lemma OccursOnce<T>(s: seq<T>, x: T)
    requires Distinct(s) && x in s
    ensures multiset(s)[x] == 1
  {
    var k := Index(s, x);
    assert s == s[..k] + [x] + s[k + 1..];
    assert x !in s[..k] && x !in s[k + 1..];
  }

  /** Although `depart` runs before `copy`: an assignment frees the object it is about to share
      exactly when p was alone on a circle with the same object as src, which is on another;
      by the promise that does not happen, p and src on one circle or not. */
  lemma AssignFreesSourceIff<P>(s: State<P>, p: P, src: P)
    requires WellFormed(s) && p in s.ring && src in s.ring && p != src && s.value[src] != NULL
    ensures Depart(s, p).deleted == s.deleted + [s.value[src]] <==>
            s.value[p] == s.value[src] && src !in s.ring[p] && |s.ring[p]| == 1
    ensures Sound(s) ==> s.value[src] !in Depart(s, p).deleted
  {
    assert OnOneCircle(s, p);
    if |s.ring[p]| == 1 {
      assert s.ring[p] == [p];
      assert (s.deleted + [s.value[p]])[|s.deleted|] == s.value[p];
      assert (s.deleted + [s.value[src]])[|s.deleted|] == s.value[src];
    }
    if Sound(s) {
      DepartDeletesLast(s, p);
      OwnedAlone(Depart(s, p), src);
    }
  }

  // ---- raw pointers captured more than once ----

  /** The circles whose pointers point to the object a. */
  ghost function Circles<P>(s: State<P>, a: Address): set<seq<P>> {
    set q | q in s.ring && q in s.value && s.value[q] == a :: s.ring[q]
  }

  /** Every capture of an object is accounted for: by a circle of its own that still stands, or
      by one deletion. */
  ghost predicate Conserved<P>(s: State<P>, a: Address) {
    multiset(s.captured)[a] == multiset(s.deleted)[a] + |Circles(s, a)|
  }

  lemma Replaced<T>(s: set<T>, x: T, y: T)
    requires x in s && y !in s
    ensures |s - {x} + {y}| == |s|
  {
  }

  lemma ShorterCircle<P>(s: State<P>, p: P)
    requires WellFormed(s) && p in s.ring && OnOneCircle(s, p) && |s.ring[p]| > 1
    ensures Without(s.ring[p], p) !in Circles(s, s.value[p])
  {
    var r := s.ring[p];
    var w := Without(r, p);
    WithoutMembers(r, p);
    var o := w[0];
    assert CoOwner(s, p, o);
    forall q | q in s.ring
      ensures s.ring[q] != w
    {
      assert OnOneCircle(s, q);
      assert o in s.ring[q] ==> CoOwner(s, q, o);
    }
  }

  lemma DepartLeavesCircles<P>(s: State<P>, p: P, a: Address, x: seq<P>)
    requires WellFormed(s) && p in s.ring && OnOneCircle(s, p) && x in Circles(s, a)
    ensures x != s.ring[p] ==> x in Circles(Depart(s, p), a)
    ensures x == s.ring[p] ==> s.value[p] == a && (|x| > 1 ==> Without(x, p) in Circles(Depart(s, p), a))
  {
    var t := Depart(s, p);
    var q :| q in s.ring && s.value[q] == a && s.ring[q] == x;
    assert OnOneCircle(s, q);
    OnNoOther(s, p);
    if x != s.ring[p] {
      assert q in t.ring && t.ring[q] == x && t.value[q] == a;
    } else if |x| > 1 {
      var o := Other(x, p);
      assert CoOwner(s, p, o);
      assert o in t.ring && t.ring[o] == Without(x, p) && t.value[o] == a;
    }
  }

  lemma DepartMakesCircle<P>(s: State<P>, p: P, a: Address, x: seq<P>)
    requires WellFormed(s) && p in s.ring && OnOneCircle(s, p) && x in Circles(Depart(s, p), a)
    ensures (x in Circles(s, a) && x != s.ring[p])
            || (s.value[p] == a && |s.ring[p]| > 1 && x == Without(s.ring[p], p))
  {
    var t := Depart(s, p);
    var q :| q in t.ring && t.value[q] == a && t.ring[q] == x;
    assert OnOneCircle(s, q);
    OnNoOther(s, p);
  }

  lemma DepartCircles<P>(s: State<P>, p: P, a: Address)
    requires WellFormed(s) && p in s.ring && OnOneCircle(s, p)
    ensures var r := s.ring[p];
            Circles(Depart(s, p), a) ==
              if s.value[p] != a then Circles(s, a)
              else if |r| == 1 then Circles(s, a) - {r}
              else Circles(s, a) - {r} + {Without(r, p)}
  {
    var t := Depart(s, p);
    forall x | x in Circles(s, a)
      ensures x != s.ring[p] ==> x in Circles(t, a)
      ensures x == s.ring[p] ==> s.value[p] == a && (|x| > 1 ==> Without(x, p) in Circles(t, a))
    {
      DepartLeavesCircles(s, p, a, x);
    }
    forall x | x in Circles(t, a)
      ensures (x in Circles(s, a) && x != s.ring[p])
              || (s.value[p] == a && |s.ring[p]| > 1 && x == Without(s.ring[p], p))
    {
      DepartMakesCircle(s, p, a, x);
    }
    assert s.value[p] == a ==> s.ring[p] in Circles(s, a);
  }

  lemma DepartConserves<P>(s: State<P>, p: P, a: Address)
    requires WellFormed(s) && p in s.ring && Conserved(s, a) && a != NULL
    ensures Conserved(Depart(s, p), a)
  {
    assert OnOneCircle(s, p);
    DepartCircles(s, p, a);
    if s.value[p] == a {
      var r := s.ring[p];
      assert r in Circles(s, a);
      if |r| > 1 {
        ShorterCircle(s, p);
        Replaced(Circles(s, a), r, Without(r, p));
      }
    }
  }

  /** No circle has a dead pointer on it. */
  lemma DeadOnNoCircle<P>(s: State<P>, p: P, a: Address)
    requires WellFormed(s) && p !in s.ring
    ensures forall r | r in Circles(s, a) :: p !in r
  {
  }

  lemma AloneCircles<P>(s: State<P>, p: P, raw: Address, a: Address)
    requires WellFormed(s) && p !in s.ring
    ensures Circles(s.(ring := s.ring[p := [p]], value := s.value[p := raw]), a) ==
            Circles(s, a) + if raw == a then {[p]} else {}
    ensures [p] !in Circles(s, a)
  {
    var t := s.(ring := s.ring[p := [p]], value := s.value[p := raw]);
    DeadOnNoCircle(s, p, a);
    assert p in [p];
    assert p in t.ring && t.ring[p] == [p] && t.value[p] == raw;
    forall x | x in Circles(s, a)
      ensures x in Circles(t, a)
    {
      var q :| q in s.ring && s.value[q] == a && s.ring[q] == x;
      assert q in t.ring && t.ring[q] == x && t.value[q] == a;
    }
  }

  lemma CaptureConserves<P>(s: State<P>, p: P, raw: Address, a: Address)
    requires WellFormed(s) && p !in s.ring && Conserved(s, a) && a != NULL
    ensures Conserved(Capture(s, p, raw), a)
  {
    AloneCircles(s, p, raw, a);
    var t := s.(ring := s.ring[p := [p]], value := s.value[p := raw]);
    assert Circles(Capture(s, p, raw), a) == Circles(t, a);
  }

  lemma JoinCircles<P>(s: State<P>, p: P, src: P, a: Address)
    requires WellFormed(s) && p !in s.ring && src in s.ring && OnOneCircle(s, src) && s.value[src] != NULL
    ensures var r := s.ring[src];
            Circles(Copy(s, p, src), a) ==
              if s.value[src] == a then Circles(s, a) - {r} + {InsertBefore(r, src, p)} else Circles(s, a)
  {
    var t, r := Copy(s, p, src), s.ring[src];
    assert forall q | q in r :: CoOwner(s, src, q);
    assert forall q | q in s.ring :: OnOneCircle(s, q);
    assert p in t.ring && t.ring[p] == InsertBefore(r, src, p) && t.value[p] == s.value[src];
    forall x | x in Circles(s, a) && x != r
      ensures x in Circles(t, a)
    {
      var q :| q in s.ring && s.value[q] == a && s.ring[q] == x;
      assert q !in r;
      assert q in t.ring && t.ring[q] == x && t.value[q] == a;
    }
  }

  lemma CopyConserves<P>(s: State<P>, p: P, src: P, a: Address)
    requires WellFormed(s) && p !in s.ring && src in s.ring && Conserved(s, a) && a != NULL
    ensures src in s.value && src in s.ring[src] && Conserved(Copy(s, p, src), a)
  {
    assert OnOneCircle(s, src);
    if s.value[src] == NULL {
      AloneCircles(s, p, NULL, a);
    } else {
      JoinCircles(s, p, src, a);
      var r := s.ring[src];
      if s.value[src] == a {
        assert r in Circles(s, a);
        DeadOnNoCircle(s, p, a);
        InsertBeforeMembers(r, src, p);
        Replaced(Circles(s, a), r, InsertBefore(r, src, p));
      }
    }
  }

  lemma ApplyConserves<P>(s: State<P>, op: Op<P>, a: Address)
    requires WellFormed(s) && Legal(s, op) && Conserved(s, a) && a != NULL
    ensures Conserved(Apply(s, op), a)
  {
    match op
    case Construct(p, raw) => CaptureConserves(s, p, raw, a);
    case CopyConstruct(p, src) => CopyConserves(s, p, src, a);
    case Assign(p, src) =>
      if p != src {
        DepartKeepsWellFormed(s, p);
        DepartConserves(s, p, a);
        CopyConserves(Depart(s, p), p, src, a);
      }
    case Reset(p, raw) =>
      DepartKeepsWellFormed(s, p);
      DepartConserves(s, p, a);
      CaptureConserves(Depart(s, p), p, raw, a);
    case Destroy(p) => DepartConserves(s, p, a);
  }

  /** Conservation, at every point of every run, however often raw pointers are captured: an
      object has been captured as often as it has been deleted and circles still stand for it. */
  lemma {:induction false} RunConserves<P>(states: seq<State<P>>, ops: seq<Op<P>>, i: nat, a: Address)
    requires IsRun(states, ops) && i <= |ops| && a != NULL
    ensures Conserved(states[i], a)
  {
    if i > 0 {
      RunKeepsWellFormed(states, ops, i - 1);
      assert IsStep(states[i - 1], ops[i - 1], states[i - 1 + 1]);
      RunConserves(states, ops, i - 1, a);
      ApplyConserves(states[i - 1], ops[i - 1], a);
    } else {
      assert Circles(states[0], a) == {};
    }
  }

  /** So no object is ever deleted more often than captured, and it has been deleted as often
      exactly when no pointer to it is left: a raw pointer captured twice is deleted twice. */
  lemma DeletedAsOftenAsCaptured<P>(states: seq<State<P>>, ops: seq<Op<P>>, i: nat, a: Address)
    requires IsRun(states, ops) && i <= |ops| && a != NULL
    ensures multiset(states[i].deleted)[a] <= multiset(states[i].captured)[a]
    ensures multiset(states[i].deleted)[a] == multiset(states[i].captured)[a] <==> a !in Owned(states[i])
  {
    var s := states[i];
    RunKeepsWellFormed(states, ops, i);
    RunConserves(states, ops, i, a);
    if a in Owned(s) {
      var q :| q in s.value && s.value[q] == a;
      assert s.ring[q] in Circles(s, a);
    } else {
      assert Circles(s, a) == {};
    }
  }

  lemma SoundHasOneCircle<P>(s: State<P>, a: Address)
    requires Sound(s) && a != NULL
    ensures |Circles(s, a)| <= if a in Owned(s) then 1 else 0
  {
    if a in Owned(s) {
      var p :| p in s.value && s.value[p] == a;
      assert OnOneCircle(s, p);
      forall q | q in s.ring && s.value[q] == a
        ensures s.ring[q] == s.ring[p]
      {
        assert q in s.ring[p] && CoOwner(s, p, q);
      }
      assert Circles(s, a) <= {s.ring[p]};
      assert |{s.ring[p]} - Circles(s, a)| == 1 - |Circles(s, a)|;
    } else {
      assert Circles(s, a) == {};
    }
  }

  lemma RepeatOccursTwice<T>(s: seq<T>, i: nat, j: nat)
    requires i < j < |s|
    ensures s[i] == s[j] ==> multiset(s)[s[i]] >= 2
  {
    assert s == s[..j] + s[j..];
    assert s[..j][i] == s[i] && s[j..][0] == s[j];
  }

  lemma SoundCapturesOnce<P>(s: State<P>)
    requires Sound(s) && forall a | a != NULL :: Conserved(s, a)
    ensures Distinct(s.captured)
  {
    forall i, j | 0 <= i < j < |s.captured|
      ensures s.captured[i] != s.captured[j]
    {
      var a := s.captured[i];
      assert a in s.captured && Conserved(s, a);
      RepeatOccursTwice(s.captured, i, j);
      SoundHasOneCircle(s, a);
      if a in s.deleted {
        OccursOnce(s.deleted, a);
      }
    }
  }

  /** Exactly when the promise holds, at every point of every run: when no raw pointer has been
      captured twice. */
  lemma RunIsSoundIff<P>(states: seq<State<P>>, ops: seq<Op<P>>, i: nat)
    requires IsRun(states, ops) && i <= |ops|
    ensures Sound(states[i]) <==> Distinct(states[i].captured)
  {
    if Distinct(states[i].captured) {
      RunIsSound(states, ops, i);
    } else if Sound(states[i]) {
      forall a | a != NULL
        ensures Conserved(states[i], a)
      {
        RunConserves(states, ops, i, a);
      }
      SoundCapturesOnce(states[i]);
    }
  }

  /** A pointer alone on its circle leaves and takes the object with it. */
  lemma AloneDeparts<P>(s: State<P>, p: P)
    requires p in s.ring && s.ring[p] == [p] && p in s.value && s.value[p] != NULL
    requires forall q | q in s.ring && q != p :: p !in s.ring[q]
    ensures Depart(s, p) == State(s.ring - {p}, s.value - {p}, s.captured, s.deleted + [s.value[p]])
  {
  }

  /** The caveat of the header happens: two captures of one raw pointer, two destructions, and
      the object is deleted twice. */
  lemma DoubleCaptureDeletesTwice<P>(p: P, q: P, a: Address) returns (states: seq<State<P>>, ops: seq<Op<P>>)
    requires p != q && a != NULL
    ensures IsRun(states, ops) && states[|ops|].deleted == [a, a]
  {
    ops := [Construct(p, a), Construct(q, a), Destroy(p), Destroy(q)];
    var s0: State<P> := Empty();
    var s1 := Capture(s0, p, a);
    var s2 := Capture(s1, q, a);
    var s3 := State(s2.ring - {p}, s2.value - {p}, [a, a], [a]);
    var s4 := State(s3.ring - {q}, s3.value - {q}, [a, a], [a, a]);
    states := [s0, s1, s2, s3, s4];
    AloneDeparts(s2, p);
    AloneDeparts(s3, q);
  }
}
