/** The four quadrants of the Eisenhower matrix and the two whole-record
    transforms the add and delete handlers apply to them. */
module Matrix {

  /** The four keys of the record; the set is fixed. */
  datatype QuadrantId =
    | ImportantUrgent
    | ImportantNotUrgent
    | NotImportantUrgent
    | NotImportantNotUrgent

  /** One ordered sequence of items per quadrant; every key is always present. */
  datatype Quadrants = Quadrants(
    importantUrgent: seq<string>,
    importantNotUrgent: seq<string>,
    notImportantUrgent: seq<string>,
    notImportantNotUrgent: seq<string>)
  {
    /** The items of quadrant `q` (the lookup `prev[quadrant]`). */
    function Get(q: QuadrantId): seq<string> {
      match q
      case ImportantUrgent => importantUrgent
      case ImportantNotUrgent => importantNotUrgent
      case NotImportantUrgent => notImportantUrgent
      case NotImportantNotUrgent => notImportantNotUrgent
    }

    /** The record with quadrant `q` replaced by `items` and the other three
        copied through (the spread `{...prev, [quadrant]: items}`). */
    function With(q: QuadrantId, items: seq<string>): (r: Quadrants)
      ensures r.Get(q) == items
      ensures forall p :: p != q ==> r.Get(p) == Get(p)
    {
      match q
      case ImportantUrgent => this.(importantUrgent := items)
      case ImportantNotUrgent => this.(importantNotUrgent := items)
      case NotImportantUrgent => this.(notImportantUrgent := items)
      case NotImportantNotUrgent => this.(notImportantNotUrgent := items)
    }
  }

  /** The initial state: all four quadrants present and empty. */
  function Empty(): (r: Quadrants)
    ensures forall q :: r.Get(q) == []
  {
    Quadrants([], [], [], [])
  }

  /** Two records are equal exactly when they agree on every quadrant. */
  lemma Extensionality(a: Quadrants, b: Quadrants)
    requires forall q :: a.Get(q) == b.Get(q)
    ensures a == b
  {
    assert a.Get(ImportantUrgent) == b.Get(ImportantUrgent);
    assert a.Get(ImportantNotUrgent) == b.Get(ImportantNotUrgent);
    assert a.Get(NotImportantUrgent) == b.Get(NotImportantUrgent);
    assert a.Get(NotImportantNotUrgent) == b.Get(NotImportantNotUrgent);
  }

  /** Appends `item` at the end of quadrant `q`. */
  function Append(qs: Quadrants, q: QuadrantId, item: string): (r: Quadrants)
    ensures |r.Get(q)| == |qs.Get(q)| + 1
    ensures r.Get(q)[..|qs.Get(q)|] == qs.Get(q) && r.Get(q)[|qs.Get(q)|] == item
    ensures forall p :: p != q ==> r.Get(p) == qs.Get(p)
  {
    qs.With(q, qs.Get(q) + [item])
  }

  /** The elements of `s` whose position differs from `index`, in their
      original order: `s.filter((_, i) => i !== index)`. The filter visits
      positions left to right; this definition peels the last position. */
  function KeepOtherPositions<T>(s: seq<T>, index: int): (r: seq<T>)
    ensures |r| == if 0 <= index < |s| then |s| - 1 else |s|
  {
    if s == [] then []
    else
      var init := s[..|s| - 1];
      KeepOtherPositions(init, index)
      + (if |s| - 1 != index then [s[|s| - 1]] else [])
  }

  /** Removes the item at position `index` of quadrant `q`; every other
      quadrant is copied through. */
  function RemoveAt(qs: Quadrants, q: QuadrantId, index: int): (r: Quadrants)
    ensures |r.Get(q)| == if 0 <= index < |qs.Get(q)| then |qs.Get(q)| - 1 else |qs.Get(q)|
    ensures forall p :: p != q ==> r.Get(p) == qs.Get(p)
  {
    qs.With(q, KeepOtherPositions(qs.Get(q), index))
  }

  /** A position outside the sequence matches no element, so the filter keeps
      them all. */
  lemma {:induction false} KeepOtherPositionsOutOfRange<T>(s: seq<T>, index: int)
    requires index < 0 || index >= |s|
    ensures KeepOtherPositions(s, index) == s
  {
    if s != [] {
      KeepOtherPositionsOutOfRange(s[..|s| - 1], index);
      assert s[..|s| - 1] + [s[|s| - 1]] == s;
    }
  }

  /** A position inside the sequence removes exactly that element. */
  lemma {:induction false} KeepOtherPositionsInRange<T>(s: seq<T>, index: int)
    requires 0 <= index < |s|
    ensures KeepOtherPositions(s, index) == s[..index] + s[index + 1..]
  {
    var init := s[..|s| - 1];
    if index == |s| - 1 {
      KeepOtherPositionsOutOfRange(init, index);
      assert s[index + 1..] == [];
    } else {
      KeepOtherPositionsInRange(init, index);
      assert init[..index] == s[..index];
      assert init[index + 1..] == s[index + 1..|s| - 1];
      assert s[index + 1..] == s[index + 1..|s| - 1] + [s[|s| - 1]];
      calc {
        KeepOtherPositions(s, index);
        KeepOtherPositions(init, index) + [s[|s| - 1]];
        (s[..index] + s[index + 1..|s| - 1]) + [s[|s| - 1]];
        s[..index] + (s[index + 1..|s| - 1] + [s[|s| - 1]]);
        s[..index] + s[index + 1..];
      }
    }
  }

  /** Adding puts `item` last in quadrant `q` and leaves the other three
      quadrants as they were. */
  lemma AppendSpec(qs: Quadrants, q: QuadrantId, item: string)
    ensures Append(qs, q, item).Get(q) == qs.Get(q) + [item]
    ensures |Append(qs, q, item).Get(q)| == |qs.Get(q)| + 1
    ensures Append(qs, q, item).Get(q)[|qs.Get(q)|] == item
    ensures forall p :: p != q ==> Append(qs, q, item).Get(p) == qs.Get(p)
  {
  }

  /** Deleting an in-range position removes that element: the quadrant is one
      shorter, the items before it keep their positions, the items after it
      move down by one, and the other quadrants are unchanged. */
  lemma RemoveAtInRange(qs: Quadrants, q: QuadrantId, index: int)
    requires 0 <= index < |qs.Get(q)|
    ensures RemoveAt(qs, q, index).Get(q) == qs.Get(q)[..index] + qs.Get(q)[index + 1..]
    ensures |RemoveAt(qs, q, index).Get(q)| == |qs.Get(q)| - 1
    ensures forall k :: 0 <= k < |qs.Get(q)| - 1 ==>
      RemoveAt(qs, q, index).Get(q)[k] == (if k < index then qs.Get(q)[k] else qs.Get(q)[k + 1])
    ensures forall p :: p != q ==> RemoveAt(qs, q, index).Get(p) == qs.Get(p)
  {
    KeepOtherPositionsInRange(qs.Get(q), index);
  }

  /** Deleting a position outside the quadrant changes nothing. */
  lemma RemoveAtOutOfRange(qs: Quadrants, q: QuadrantId, index: int)
    requires index < 0 || index >= |qs.Get(q)|
    ensures RemoveAt(qs, q, index) == qs
  {
    KeepOtherPositionsOutOfRange(qs.Get(q), index);
    Extensionality(RemoveAt(qs, q, index), qs);
  }

  /** Deleting the item that was just added restores the record. */
  lemma RemoveAtUndoesAppend(qs: Quadrants, q: QuadrantId, item: string)
    ensures RemoveAt(Append(qs, q, item), q, |qs.Get(q)|) == qs
  {
    var s := qs.Get(q) + [item];
    KeepOtherPositionsInRange(s, |qs.Get(q)|);
    assert s[..|qs.Get(q)|] + s[|qs.Get(q)| + 1..] == qs.Get(q);
    Extensionality(RemoveAt(Append(qs, q, item), q, |qs.Get(q)|), qs);
  }
}
