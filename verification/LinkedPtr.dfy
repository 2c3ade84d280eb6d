// gtest-linked_ptr.h on the heap: co-owners on a circular singly linked list of next
// pointers. The embedded link_ is folded into its linked_ptr, as both lie in one object.

module LinkedPtr {
  import opened Helpers
  import opened Ownership

  class LinkedPtr {
    var value: Address
    var next: LinkedPtr?

    // ---- linked_ptr_internal ----

    method JoinNew()
      modifies this`next
      ensures next == this
    {
      next := this;
    }

    /** The loop of `join` and `depart`: from start, which is `ahead` places past x on the circle,
        to the pointer whose next is x. */
    static method WalkTo(x: LinkedPtr, start: LinkedPtr, ghost r: seq<LinkedPtr>, ghost ahead: nat)
      returns (p: LinkedPtr)
      requires Circle(r) && x in r && ahead < |r| && start == r[Around(r, Index(r, x), ahead)]
      ensures p == r[Pred(r, Index(r, x))]
      ensures forall i | 0 <= i < |r| && i != Pred(r, Index(r, x)) :: r[i] != p && r[i].next == r[Succ(r, i)]
    {
      ghost var k, d := Index(r, x), ahead;
      p := start;
      NextAround(r, k, d);
      while p.next != x
        invariant d < |r| && p == r[Around(r, k, d)]
        invariant p.next == if d + 1 < |r| then r[Around(r, k, d + 1)] else x
        decreases |r| - d
      {
        p := p.next;
        d := d + 1;
        NextAround(r, k, d);
      }
    }

    /** Walks once around the circle r to the member in front of ptr and goes in there. */
    method Join(ptr: LinkedPtr, ghost r: seq<LinkedPtr>)
      requires Circle(r) && ptr in r && this !in r
      modifies this`next, (set q | q in r)`next
      ensures Circle(InsertBefore(r, ptr, this)) && next == ptr
    {
      var p := WalkTo(ptr, ptr, r, 0);
      p.next := this;
      next := ptr;
      Joined(r, ptr, this);
    }

    /** Walks around the rest of the circle r to the member in front of this and links it past
        this. The own next pointer stays as it was. */
    method LeaveCircle(ghost r: seq<LinkedPtr>) returns (last: bool)
      requires Circle(r) && this in r
      modifies (set q | q in r)`next
      ensures next == old(next)
      ensures last <==> |r| == 1
      ensures last ==> forall q | q in r :: q.next == old(q.next)
      ensures !last ==> Circle(Without(r, this))
    {
      NextAround(r, Index(r, this), 0);
      if next == this {
        return true;
      }
      var p := WalkTo(this, next, r, 1);
      assert next == r[Succ(r, Index(r, this))];
      p.next := next;
      Left(r, this);
      return false;
    }

    // ---- linked_ptr: the private operations ----

    /** `depart` */
    method Leave(h: Heap)
      requires h.Valid() && this in h.ring
      modifies h, h.ring.Keys
      ensures h.Valid() && h.State() == Depart(old(h.State()), this)
      ensures forall q | q in old(h.ring) :: q.value == old(q.value)
    {
      ghost var s, r := h.State(), h.ring[this];
      h.Separate(this);
      var last := LeaveCircle(r);
      if last {
        h.Delete(value);
      }
      DepartKeepsWellFormed(s, this);
      assert forall q | q in h.ring && q !in r :: Circle(h.ring[q]);
      h.Record(Depart(s, this));
    }

    /** `capture` */
    method TakeOver(h: Heap, ptr: Address)
      requires h.Valid() && this !in h.ring
      modifies h, this
      ensures h.Valid() && h.State() == Capture(old(h.State()), this, ptr)
      ensures value == ptr
    {
      ghost var s := h.State();
      h.Unknown(this);
      value := ptr;
      JoinNew();
      CaptureKeepsWellFormed(s, this, ptr);
      assert forall q | q in h.ring :: Circle(h.ring[q]);
      h.Record(Capture(s, this, ptr));
    }

    /** `copy` */
    method Share(h: Heap, ptr: LinkedPtr)
      requires h.Valid() && this !in h.ring && ptr in h.ring
      modifies h, this, h.ring.Keys
      ensures ptr in old(h.State()).value && ptr in old(h.State()).ring[ptr]
      ensures h.Valid() && h.State() == Copy(old(h.State()), this, ptr)
      ensures value == ptr.value == old(ptr.value) && next == if value == NULL then this else ptr
    {
      ghost var s, r := h.State(), h.ring[ptr];
      CopyKeepsWellFormed(s, this, ptr);
      h.Unknown(this);
      h.Separate(ptr);
      value := ptr.value;
      if value != NULL {
        Join(ptr, r);
        assert Circle(InsertBefore(r, ptr, this));
      } else {
        JoinNew();
        assert Circle([this]);
      }
      assert forall q | q in h.ring && (value == NULL || q !in r) :: Circle(h.ring[q]);
      assert forall q | q in h.ring :: s.value[q] == q.value;
      h.Record(Copy(s, this, ptr));
    }

    // ---- linked_ptr: the public operations ----

    constructor FromRaw(h: Heap, ptr: Address)
      requires h.Valid()
      modifies h
      ensures Legal(old(h.State()), Construct(this, ptr))
      ensures h.Valid() && h.State() == Apply(old(h.State()), Construct(this, ptr))
      ensures value == ptr
    {
      new;
      TakeOver(h, ptr);
    }

    constructor FromCopy(h: Heap, ptr: LinkedPtr)
      requires h.Valid() && ptr in h.ring
      modifies h, h.ring.Keys
      ensures Legal(old(h.State()), CopyConstruct(this, ptr))
      ensures h.Valid() && h.State() == Apply(old(h.State()), CopyConstruct(this, ptr))
      ensures value == ptr.value == old(ptr.value)
    {
      new;
      Share(h, ptr);
    }

    /** `operator=` */
    method Assign(h: Heap, ptr: LinkedPtr)
      requires h.Valid() && this in h.ring && ptr in h.ring
      modifies h, h.ring.Keys
      ensures h.Valid() && h.State() == Apply(old(h.State()), Op.Assign(this, ptr))
      ensures value == ptr.value == old(ptr.value)
    {
      if ptr != this {
        ghost var s := h.State();
        Leave(h);
        assert h.State() == Depart(s, this);
        Share(h, ptr);
      }
    }

    /** `reset` */
    method Reset(h: Heap, ptr: Address)
      requires h.Valid() && this in h.ring
      modifies h, h.ring.Keys
      ensures h.Valid() && h.State() == Apply(old(h.State()), Op.Reset(this, ptr))
      ensures value == ptr
    {
      Leave(h);
      TakeOver(h, ptr);
    }

    /** The destructor */
    method Destroy(h: Heap)
      requires h.Valid() && this in h.ring
      modifies h, h.ring.Keys
      ensures h.Valid() && h.State() == Apply(old(h.State()), Op.Destroy(this))
    {
      Leave(h);
    }
  }

  /** The allocator's side: the objects deleted so far; and, for the proofs, the live pointers
      with their circles and the raw pointers that were taken over. */
  class Heap {
    var deleted: seq<Address>
    ghost var captured: seq<Address>
    ghost var ring: map<LinkedPtr, seq<LinkedPtr>>

    ghost function State(): State<LinkedPtr>
      reads this, ring.Keys
    {
      Ownership.State(ring, map p | p in ring :: p.value, captured, deleted)
    }

    ghost predicate IsCircle(p: LinkedPtr)
      requires p in ring
      reads this, ring.Keys
    {
      (forall q | q in ring[p] :: q in ring) && Circle(ring[p])
    }

    ghost predicate Valid()
      reads this, ring.Keys
    {
      WellFormed(State()) && forall p | p in ring :: IsCircle(p)
    }

    constructor ()
      ensures Valid() && State() == Empty()
    {
      deleted, captured, ring := [], [], map[];
    }

    lemma Separate(p: LinkedPtr)
      requires Valid() && p in ring
      ensures p in ring[p] && Circle(ring[p])
      ensures forall q | q in ring && q !in ring[p] :: Circle(ring[q]) && forall x | x in ring[q] :: x !in ring[p]
      ensures forall q | q in ring[p] :: q in ring && ring[q] == ring[p]
    {
    }

    lemma Unknown(p: LinkedPtr)
      requires Valid() && p !in ring
      ensures forall q | q in ring :: Circle(ring[q]) && p !in ring[q]
    {
    }

    /** Takes note of the state the pointers are in now. */
    ghost method Record(t: State<LinkedPtr>)
      requires WellFormed(t) && deleted == t.deleted
      requires forall q | q in t.ring :: t.value[q] == q.value && Circle(t.ring[q])
      modifies this`ring, this`captured
      ensures Valid() && State() == t
    {
      ring, captured := t.ring, t.captured;
      assert State() == t;
      forall q | q in ring
        ensures IsCircle(q)
      {
        assert OnOneCircle(t, q);
        assert forall x | x in ring[q] :: CoOwner(t, q, x);
      }
    }

    /** `delete`; of a null pointer it does nothing. */
    method Delete(p: Address)
      modifies this`deleted
      ensures deleted == if p != NULL then old(deleted) + [p] else old(deleted)
    {
      if p != NULL {
        deleted := deleted + [p];
      }
    }
  }

  /** The position after i on a circle */
  ghost function Succ<T>(r: seq<T>, i: nat): (j: nat)
    requires i < |r|
    ensures j < |r|
  {
    if i + 1 < |r| then i + 1 else 0
  }

  ghost function Pred<T>(r: seq<T>, i: nat): (j: nat)
    requires i < |r|
    ensures j < |r|
  {
    if i > 0 then i - 1 else |r| - 1
  }

  /** The position d steps on from position k. */
  ghost function Around<T>(r: seq<T>, k: nat, d: nat): (i: nat)
    requires k < |r| && d < |r|
    ensures i < |r|
  {
    if k + d < |r| then k + d else k + d - |r|
  }

  /** The next pointers lead around r and back. */
  ghost predicate Circle(r: seq<LinkedPtr>)
    reads r
  {
    && r != [] && Distinct(r)
    && forall i | 0 <= i < |r| :: r[i].next == r[Succ(r, i)]
  }

  lemma NextAround(r: seq<LinkedPtr>, k: nat, d: nat)
    requires Circle(r) && k < |r| && d < |r|
    ensures r[Around(r, k, d)].next == if d + 1 < |r| then r[Around(r, k, d + 1)] else r[k]
    ensures d > 0 ==> r[Around(r, k, d)] != r[k]
  {
  }

  /** What follows what once p is in before x, at position k of r. */
  lemma SuccInserted(r: seq<LinkedPtr>, k: nat, p: LinkedPtr, i: nat)
    requires k < |r| && i <= |r|
    ensures var s, j := r[..k] + [p] + r[k..], if i < k then i else i - 1;
            if i == k then s[i] == p && s[Succ(s, i)] == r[k]
            else s[i] == r[j] && s[Succ(s, i)] == if j == Pred(r, k) then p else r[Succ(r, j)]
  {
  }

  /** r with p linked in before x is the circle with p put in before x. */
  lemma Joined(r: seq<LinkedPtr>, x: LinkedPtr, p: LinkedPtr)
    requires Distinct(r) && x in r && p !in r
    requires p.next == x && r[Pred(r, Index(r, x))].next == p
    requires forall i | 0 <= i < |r| && i != Pred(r, Index(r, x)) :: r[i].next == r[Succ(r, i)]
    ensures Circle(InsertBefore(r, x, p))
  {
    var s := InsertBefore(r, x, p);
    InsertBeforeMembers(r, x, p);
    forall i | 0 <= i < |s|
      ensures s[i].next == s[Succ(s, i)]
    {
      SuccInserted(r, Index(r, x), p, i);
    }
  }

  /** What follows what once position k of r is gone. */
  lemma SuccRemoved(r: seq<LinkedPtr>, k: nat, i: nat)
    requires k < |r| && i < |r| - 1
    ensures var s, j := r[..k] + r[k + 1..], if i < k then i else i + 1;
            s[i] == r[j] && s[Succ(s, i)] == r[Succ(r, if j == Pred(r, k) then k else j)]
  {
  }

  /** r linked past p is the circle without p. */
  lemma Left(r: seq<LinkedPtr>, p: LinkedPtr)
    requires Distinct(r) && p in r && |r| > 1
    requires r[Pred(r, Index(r, p))].next == r[Succ(r, Index(r, p))]
    requires forall i | 0 <= i < |r| && i != Pred(r, Index(r, p)) :: r[i].next == r[Succ(r, i)]
    ensures Circle(Without(r, p))
  {
    var s := Without(r, p);
    WithoutMembers(r, p);
    forall i | 0 <= i < |s|
      ensures s[i].next == s[Succ(s, i)]
    {
      SuccRemoved(r, Index(r, p), i);
    }
  }
}
