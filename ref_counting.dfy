/** `RefCounted` and `SmartPtr`: an intrusive reference count and the
    pointer wrapper that keeps it. Every smart pointer that holds an object
    accounts for one unit of its count, and the pointer that takes the
    count from 1 to 0 deletes the object. `delete` is modelled by a ghost
    flag on the object; a deleted object is never touched again by a
    pointer that keeps the accounting. */
module RefCounting {
  import opened Common

  /** The text an `ASSERTGR` without a message reports: its expression. */
  const CountPositive := "m_refCount > 0"
  const PtrNotNull := "m_ptr != NULL"

  class RefCounted {
    var refCount: nat
    /** Set when the object is deleted. */
    ghost var deleted: bool

    /** A new object starts with no references. */
    constructor ()
      ensures refCount == 0 && !deleted
    {
      refCount := 0;
      deleted := false;
    }

    /** `AddRef`: the count before the increment. */
    method AddRef() returns (previous: nat)
      modifies this
      ensures previous == old(refCount) && refCount == old(refCount) + 1
      ensures deleted == old(deleted)
    {
      previous := refCount;
      refCount := refCount + 1;
    }

    /** `ReleaseRef`: the count before the decrement; the count must be
        positive. */
    method ReleaseRef() returns (previous: nat, s: Status)
      modifies this
      ensures previous == old(refCount) && deleted == old(deleted)
      ensures old(refCount) == 0 ==> s == Aborted(CountPositive) && refCount == 0
      ensures old(refCount) > 0 ==> s == Completed && refCount == old(refCount) - 1
    {
      previous := refCount;
      if refCount == 0 {
        return previous, Aborted(CountPositive);
      }
      refCount := refCount - 1;
      s := Completed;
    }
  }

  /** How many of the targets `ts` are `o`. */
  function Count(ts: seq<RefCounted?>, o: RefCounted?): (n: nat)
    ensures n <= |ts|
  {
    if ts == [] then 0 else (if ts[0] == o then 1 else 0) + Count(ts[1..], o)
  }

  /** Retargeting one entry moves one unit of count from its old target to
      its new one. */
  lemma {:induction false} CountUpdate(ts: seq<RefCounted?>, i: nat, b: RefCounted?, o: RefCounted?)
    requires i < |ts|
    ensures Count(ts[i := b], o) + (if ts[i] == o then 1 else 0) == Count(ts, o) + (if b == o then 1 else 0)
  {
    if i > 0 {
      assert ts[i := b][1..] == ts[1..][i - 1 := b];
      CountUpdate(ts[1..], i - 1, b, o);
    }
  }

  /** An entry that is `o` makes its count positive. */
  lemma {:induction false} CountPositiveAt(ts: seq<RefCounted?>, i: nat)
    requires i < |ts|
    ensures Count(ts, ts[i]) >= 1
  {
    if i > 0 {
      CountPositiveAt(ts[1..], i - 1);
    }
  }

  /** Appending an entry adds one to its target's count only. */
  lemma {:induction false} CountAppend(ts: seq<RefCounted?>, b: RefCounted?, o: RefCounted?)
    ensures Count(ts + [b], o) == Count(ts, o) + (if b == o then 1 else 0)
  {
    if ts != [] {
      assert (ts + [b])[1..] == ts[1..] + [b];
      CountAppend(ts[1..], b, o);
    }
  }

  /** Two entries that are the same object count it at least twice. */
  lemma {:induction false} CountTwo(ts: seq<RefCounted?>, i: nat, j: nat)
    requires i < j < |ts| && ts[i] == ts[j]
    ensures Count(ts, ts[i]) >= 2
  {
    if i > 0 {
      CountTwo(ts[1..], i - 1, j - 1);
    } else {
      CountPositiveAt(ts[1..], j - 1);
    }
  }

  /** The accounting of a population of smart pointers, as values: the
      object each pointer holds (NULL included), the count of each object
      and the objects deleted so far. Each function below is what one
      `SmartPtr` operation does to it. */
  datatype Ledger = Ledger(targets: seq<RefCounted?>, count: map<RefCounted, nat>, dead: set<RefCounted>)

  function CountOf(l: Ledger, o: RefCounted): nat
  {
    if o in l.count then l.count[o] else 0
  }

  /** Every object a pointer holds is alive and its count is the number of
      pointers that hold it. */
  predicate Sound(l: Ledger)
  {
    forall j :: 0 <= j < |l.targets| && l.targets[j] != null ==>
      l.targets[j] !in l.dead && CountOf(l, l.targets[j]) == Count(l.targets, l.targets[j])
  }

  /** `AddRef` on `o` unless it is NULL. */
  function Retain(l: Ledger, o: RefCounted?): (r: Ledger)
    ensures r.targets == l.targets && r.dead == l.dead
  {
    if o == null then l else l.(count := l.count[o := CountOf(l, o) + 1])
  }

  /** The private `ReleaseRef` of pointer `i`: one reference less on what
      it holds; the one that takes the count from 1 to 0 deletes the object
      and leaves the pointer NULL. */
  function ReleaseAt(l: Ledger, i: nat): (r: Ledger)
    requires i < |l.targets|
    requires l.targets[i] != null ==> CountOf(l, l.targets[i]) > 0
    ensures |r.targets| == |l.targets|
  {
    var a := l.targets[i];
    if a == null then l
    else if CountOf(l, a) == 1 then l.(targets := l.targets[i := null], count := l.count[a := 0], dead := l.dead + {a})
    else l.(count := l.count[a := CountOf(l, a) - 1])
  }

  /** `SmartPtr(p)`: a new pointer to `p`. */
  function Construct(l: Ledger, p: RefCounted?): (r: Ledger)
    ensures r.targets == l.targets + [p]
  {
    Retain(l.(targets := l.targets + [p]), p)
  }

  /** The destructor of pointer `i`: one release, after which the pointer
      is gone and holds nothing. */
  function Destroy(l: Ledger, i: nat): (r: Ledger)
    requires i < |l.targets|
    requires l.targets[i] != null ==> CountOf(l, l.targets[i]) > 0
    ensures r.targets == l.targets[i := null]
  {
    var released := ReleaseAt(l, i);
    released.(targets := released.targets[i := null])
  }

  /** `operator=` as written, pointer `i` assigned from pointer `k`:
      release and clear `i`, then take what `k` holds by then. */
  function AssignAsWritten(l: Ledger, i: nat, k: nat): (r: Ledger)
    requires i < |l.targets| && k < |l.targets|
    requires l.targets[i] != null ==> CountOf(l, l.targets[i]) > 0
    ensures r.targets == l.targets[i := if i == k then null else l.targets[k]]
  {
    var cleared := Destroy(l, i);
    var b := cleared.targets[k];
    Retain(cleared.(targets := cleared.targets[i := b]), b)
  }

  /** `operator=` with the reference to the new object taken before the
      old one is released, so that nothing is released early. */
  function Assign(l: Ledger, i: nat, k: nat): (r: Ledger)
    requires i < |l.targets| && k < |l.targets|
    requires l.targets[i] != null ==> CountOf(l, l.targets[i]) + (if l.targets[k] == l.targets[i] then 1 else 0) > 0
    ensures r.targets == l.targets[i := l.targets[k]]
  {
    var b := l.targets[k];
    var retained := Retain(l, b);
    var released := Destroy(retained, i);
    released.(targets := released.targets[i := b])
  }

  /** In a sound ledger the object a pointer holds has a positive count. */
  lemma SoundHeld(l: Ledger, i: nat)
    requires Sound(l) && i < |l.targets| && l.targets[i] != null
    ensures CountOf(l, l.targets[i]) > 0
  {
    CountPositiveAt(l.targets, i);
  }

  /** A pointer slot that holds nothing taking a reference to `b` keeps
      the ledger sound when `b` is alive and counted once per holder. */
  lemma RetainSound(l: Ledger, i: nat, b: RefCounted?)
    requires Sound(l) && i < |l.targets| && l.targets[i] == null
    requires b != null ==> b !in l.dead && CountOf(l, b) == Count(l.targets, b)
    ensures Sound(Retain(l.(targets := l.targets[i := b]), b))
  {
    var r := Retain(l.(targets := l.targets[i := b]), b);
    forall j | 0 <= j < |r.targets| && r.targets[j] != null
      ensures r.targets[j] !in r.dead && CountOf(r, r.targets[j]) == Count(r.targets, r.targets[j])
    {
      CountUpdate(l.targets, i, b, r.targets[j]);
    }
  }

  /** A new pointer to an alive object whose count is the number of
      pointers holding it keeps the ledger sound. */
  lemma ConstructSound(l: Ledger, p: RefCounted?)
    requires Sound(l)
    requires p != null ==> p !in l.dead && CountOf(l, p) == Count(l.targets, p)
    ensures Sound(Construct(l, p))
  {
    var r := Construct(l, p);
    forall j | 0 <= j < |r.targets| && r.targets[j] != null
      ensures r.targets[j] !in r.dead && CountOf(r, r.targets[j]) == Count(r.targets, r.targets[j])
    {
      CountAppend(l.targets, p, r.targets[j]);
    }
  }

  /** A copy of pointer `k` keeps the ledger sound. */
  lemma CopySound(l: Ledger, k: nat)
    requires Sound(l) && k < |l.targets|
    ensures Sound(Construct(l, l.targets[k]))
  {
    ConstructSound(l, l.targets[k]);
  }

  /** Destroying a pointer keeps the ledger sound: an object it deletes is
      held by no pointer left, and one it does not delete keeps a count
      equal to its remaining holders. */
  lemma DestroySound(l: Ledger, i: nat)
    requires Sound(l) && i < |l.targets|
    ensures l.targets[i] != null ==> CountOf(l, l.targets[i]) > 0
    ensures Sound(Destroy(l, i))
  {
    if l.targets[i] != null {
      SoundHeld(l, i);
    }
    var r := Destroy(l, i);
    forall j | 0 <= j < |r.targets| && r.targets[j] != null
      ensures r.targets[j] !in r.dead && CountOf(r, r.targets[j]) == Count(r.targets, r.targets[j])
    {
      CountUpdate(l.targets, i, null, r.targets[j]);
      CountPositiveAt(r.targets, j);
    }
  }

  /** Assignment as written keeps the ledger sound. */
  lemma AssignAsWrittenSound(l: Ledger, i: nat, k: nat)
    requires Sound(l) && i < |l.targets| && k < |l.targets|
    ensures l.targets[i] != null ==> CountOf(l, l.targets[i]) > 0
    ensures Sound(AssignAsWritten(l, i, k))
  {
    DestroySound(l, i);
    var cleared := Destroy(l, i);
    RetainSound(cleared, i, cleared.targets[k]);
  }

  /** Self-assignment as written: the pointer ends up NULL, and when it was
      the only holder its object is deleted. */
  lemma SelfAssignClears(l: Ledger, i: nat)
    requires Sound(l) && i < |l.targets| && l.targets[i] != null
    ensures CountOf(l, l.targets[i]) > 0
    ensures AssignAsWritten(l, i, i).targets[i] == null
    ensures CountOf(l, l.targets[i]) == 1 ==> l.targets[i] in AssignAsWritten(l, i, i).dead
  {
    SoundHeld(l, i);
  }

  /** The corrected assignment does what the as-written one does, except
      that assigning a pointer to itself changes nothing; so it keeps the
      ledger sound and the pointer ends up holding what `k` held. */
  lemma AssignCorrected(l: Ledger, i: nat, k: nat)
    requires Sound(l) && i < |l.targets| && k < |l.targets|
    ensures l.targets[i] != null ==> CountOf(l, l.targets[i]) > 0
    ensures Assign(l, i, k) == if i == k then l else AssignAsWritten(l, i, k)
    ensures Sound(Assign(l, i, k)) && Assign(l, i, k).targets == l.targets[i := l.targets[k]]
  {
    AssignAsWrittenSound(l, i, k);
    if i == k {
      AssignSelfUnchanged(l, i);
    } else {
      AssignOtherAsWritten(l, i, k);
    }
  }

  /** Assigning a pointer to itself takes a reference and gives it back. */
  lemma AssignSelfUnchanged(l: Ledger, i: nat)
    requires Sound(l) && i < |l.targets|
    ensures Assign(l, i, i) == l
  {
    var a := l.targets[i];
    if a != null {
      SoundHeld(l, i);
      assert l.count[a := CountOf(l, a) + 1][a := CountOf(l, a)] == l.count;
    }
  }

  /** From another pointer, taking the new reference first or last comes
      to the same: when both hold the same object its count is at least 2,
      so the release does not delete it. */
  lemma AssignOtherAsWritten(l: Ledger, i: nat, k: nat)
    requires Sound(l) && i < |l.targets| && k < |l.targets| && i != k
    requires l.targets[i] != null ==> CountOf(l, l.targets[i]) > 0
    ensures Assign(l, i, k) == AssignAsWritten(l, i, k)
  {
    var a := l.targets[i];
    if a != null && l.targets[k] == a {
      CountTwo(l.targets, if i < k then i else k, if i < k then k else i);
      SharedSwap(l, i, k);
    } else {
      DistinctSwap(l, i, k);
    }
  }

  /** Both pointers hold the same object: its count goes up and down by
      one in either order. */
  lemma SharedSwap(l: Ledger, i: nat, k: nat)
    requires i < |l.targets| && k < |l.targets| && i != k
    requires l.targets[i] != null && l.targets[k] == l.targets[i] && CountOf(l, l.targets[i]) >= 2
    ensures Assign(l, i, k) == AssignAsWritten(l, i, k)
  {
    var a := l.targets[i];
    var c := CountOf(l, a);
    assert Assign(l, i, k).count == l.count[a := c + 1][a := c];
    assert AssignAsWritten(l, i, k).count == l.count[a := c - 1][a := c];
  }

  /** The pointer held nothing, or another object than the new one: the
      release and the new reference touch different counts. */
  lemma DistinctSwap(l: Ledger, i: nat, k: nat)
    requires i < |l.targets| && k < |l.targets| && i != k
    requires l.targets[i] != null ==> CountOf(l, l.targets[i]) > 0 && l.targets[k] != l.targets[i]
    ensures Assign(l, i, k) == AssignAsWritten(l, i, k)
  {
    var a := l.targets[i];
    var b := l.targets[k];
    var retained := Retain(l, b);
    if a != null {
      assert CountOf(retained, a) == CountOf(l, a);
    }
    var cleared := Destroy(l, i);
    assert cleared.targets[k] == b;
    if b != null {
      assert CountOf(cleared, b) == CountOf(l, b);
    }
  }

  class SmartPtr {
    var ptr: RefCounted?

    /** `SmartPtr(t_type *)`: holds `p` and takes a reference to it unless
        it is NULL. */
    constructor (p: RefCounted?)
      modifies p
      ensures ptr == p
      ensures p != null ==> p.refCount == old(p.refCount) + 1 && p.deleted == old(p.deleted)
    {
      ptr := p;
      new;
      if p != null {
        var _ := p.AddRef();
      }
    }

    /** The copy constructor: holds what `rhs` holds and takes another
        reference to it. */
    constructor Copy(rhs: SmartPtr)
      modifies rhs.ptr
      ensures ptr == rhs.ptr && rhs.ptr == old(rhs.ptr)
      ensures ptr != null ==> ptr.refCount == old(rhs.ptr.refCount) + 1 && ptr.deleted == old(rhs.ptr.deleted)
    {
      var p := rhs.ptr;
      ptr := p;
      new;
      if p != null {
        var _ := p.AddRef();
      }
    }

    /** The private `ReleaseRef`, which is also all the destructor does:
        gives up one reference; the pointer that takes the count from 1
        to 0 deletes the object and becomes NULL, any other keeps
        pointing at it. */
    method Release() returns (s: Status)
      modifies this, ptr
      ensures old(ptr) == null ==> ptr == null && s == Completed
      ensures old(ptr) != null && old(ptr.refCount) == 0 ==> s == Aborted(CountPositive)
      ensures old(ptr) != null && old(ptr.refCount) > 0 ==>
                s == Completed && old(ptr).refCount == old(ptr.refCount) - 1 &&
                ptr == (if old(ptr.refCount) == 1 then null else old(ptr)) &&
                old(ptr).deleted == (old(ptr.deleted) || old(ptr.refCount) == 1)
    {
      s := Completed;
      if ptr != null {
        var previous;
        previous, s := ptr.ReleaseRef();
        if s.Aborted? {
          return;
        }
        if previous == 1 {
          ptr.deleted := true;
          ptr := null;
        }
      }
    }

    /** `operator=` as written: release what this pointer holds and become
        NULL, then take what `rhs` holds. When `rhs` is this pointer, it
        already reads NULL by then: self-assignment gives up the reference
        and leaves the pointer NULL (`AssignAsWritten` and
        `SelfAssignClears` state the same on the ledger). */
    method Assign(rhs: SmartPtr) returns (s: Status)
      modifies this, ptr, rhs.ptr
      ensures s.Completed? <==> old(ptr) == null || old(ptr.refCount) > 0
      ensures s.Completed? ==> ptr == if rhs == this then null else old(rhs.ptr)
      ensures s.Completed? && old(ptr) != null ==>
                old(ptr).refCount == old(ptr.refCount) - 1 + (if rhs != this && old(rhs.ptr) == old(ptr) then 1 else 0) &&
                old(ptr).deleted == (old(ptr.deleted) || old(ptr.refCount) == 1)
      ensures s.Completed? && rhs != this && old(rhs.ptr) != null ==>
                old(rhs.ptr).refCount == old(rhs.ptr.refCount) + 1 - (if old(rhs.ptr) == old(ptr) then 1 else 0)
      ensures s.Completed? && rhs != this && old(rhs.ptr) != null && old(rhs.ptr) != old(ptr) ==>
                old(rhs.ptr).deleted == old(rhs.ptr.deleted)
    {
      s := Completed;
      if ptr != null {
        s := Release();
        if s.Aborted? {
          return;
        }
        ptr := null;
      }
      ptr := rhs.ptr;
      if ptr != null {
        var _ := ptr.AddRef();
      }
    }

    /** `operator=` with the reference to the new object taken before the
        old one is released: the pointer always ends up holding what `rhs`
        held, and an object both hold keeps its count and is not deleted. */
    method AssignFixed(rhs: SmartPtr) returns (s: Status)
      modifies this, ptr, rhs.ptr
      ensures s.Completed? <==> old(ptr) == null || old(ptr.refCount) > 0 || old(ptr) == old(rhs.ptr)
      ensures s.Completed? ==> ptr == old(rhs.ptr)
      ensures s.Completed? && old(ptr) != null && old(ptr) == old(rhs.ptr) ==>
                old(ptr).refCount == old(ptr.refCount) &&
                old(ptr).deleted == (old(ptr.deleted) || old(ptr.refCount) == 0)
      ensures s.Completed? && old(ptr) != null && old(ptr) != old(rhs.ptr) ==>
                old(ptr).refCount == old(ptr.refCount) - 1 &&
                old(ptr).deleted == (old(ptr.deleted) || old(ptr.refCount) == 1)
      ensures s.Completed? && old(rhs.ptr) != null && old(rhs.ptr) != old(ptr) ==>
                old(rhs.ptr).refCount == old(rhs.ptr.refCount) + 1 && old(rhs.ptr).deleted == old(rhs.ptr.deleted)
    {
      var b := rhs.ptr;
      if b != null {
        var _ := b.AddRef();
      }
      s := Release();
      if s.Aborted? {
        return;
      }
      ptr := b;
    }

    /** `operator->`: the object, which must not be NULL. */
    method Arrow() returns (r: RefCounted?, s: Status)
      ensures r == ptr
      ensures s == (if ptr == null then Aborted(PtrNotNull) else Completed)
    {
      r := ptr;
      s := if ptr == null then Aborted(PtrNotNull) else Completed;
    }

    /** `operator==(NULL)`: true exactly when `operator->` would abort. */
    predicate IsNull()
      reads this
      ensures IsNull() <==> ptr == null
    {
      ptr == null
    }

    /** `operator!=(const SmartPtr &)`: whether the two pointers hold
        different objects. A pointer never differs from itself, two NULL
        pointers do not differ, and pointers that do not differ are NULL
        together. */
    predicate Differs(rhs: SmartPtr)
      reads this, rhs
      ensures rhs == this ==> !Differs(rhs)
      ensures IsNull() && rhs.IsNull() ==> !Differs(rhs)
      ensures !Differs(rhs) ==> (IsNull() <==> rhs.IsNull())
    {
      ptr != rhs.ptr
    }
  }
}
