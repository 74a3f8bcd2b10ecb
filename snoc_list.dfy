/**
 * The append-optimised list: a chain of cells, each holding its length, the
 * list it extends and one more element, turned into a flat list on demand.
 * The ghost field Contents is the list the object stands for.
 */
module SnocLists {
  import opened Wrappers

  /**
   * What a cell extends: an ordinary list (any list that is not a
   * FastSnocList, taken as its elements), another FastSnocList, or nothing
   * once the cell has been flattened and has dropped its references.
   */
  datatype AnyList<V> = Plain(items: seq<V>) | Fast(list: FastSnocList<V>) | Null

  /** The list s with x inserted before position i. */
  function Inserted<V>(s: seq<V>, i: nat, x: V): (r: seq<V>)
    requires i <= |s|
    ensures |r| == |s| + 1 && r[i] == x
    ensures r[..i] == s[..i] && r[i + 1..] == s[i..]
  {
    s[..i] + [x] + s[i..]
  }

  /** The list s with the list c inserted before position i. */
  function InsertedAll<V>(s: seq<V>, i: nat, c: seq<V>): (r: seq<V>)
    requires i <= |s|
    ensures |r| == |s| + |c| && r[i..i + |c|] == c
    ensures r[..i] == s[..i] && r[i + |c|..] == s[i..]
  {
    s[..i] + c + s[i..]
  }

  class FastSnocList<V> {
    var flattenedList: Option<seq<V>>
    var len: int
    var init: AnyList<V>
    var lastElement: Option<V>

    ghost var Contents: seq<V>
    ghost var Repr: set<object>

    /**
     * A flattened list holds its contents in flattenedList. An unflattened
     * one holds at least one element: the last in lastElement, the others in
     * init, which is an ordinary list or an unflattened cell of its own
     * footprint. A shared cell that is later flattened or appended to breaks
     * the lists built on it; framing by Repr keeps that out of the model.
     */
    ghost predicate Valid()
      reads this, Repr
      decreases Repr
    {
      this in Repr &&
      (flattenedList.Some? ==> Contents == flattenedList.value) &&
      (flattenedList.None? ==>
        1 <= len == |Contents| && lastElement.Some? &&
        match init
        case Plain(items) => Contents == items + [lastElement.value]
        case Fast(cell) =>
          cell in Repr && cell.Repr <= Repr && this !in cell.Repr &&
          cell.Valid() && cell.flattenedList.None? &&
          Contents == cell.Contents + [lastElement.value]
        case Null => false)
    }

    /** The private constructor: a cell that extends init by newElement. */
    constructor Cell(len: int, init: AnyList<V>, newElement: V)
      requires !init.Null?
      requires init.Plain? ==> len == |init.items| + 1
      requires init.Fast? ==> init.list.Valid() && init.list.flattenedList.None? && len == init.list.len + 1
      ensures Valid() && flattenedList == None
      ensures this.len == len && this.init == init && lastElement == Some(newElement)
      ensures init.Plain? ==> Contents == init.items + [newElement] && Repr == {this}
      ensures init.Fast? ==> Contents == init.list.Contents + [newElement] && Repr == {this} + init.list.Repr
    {
      flattenedList := None;
      this.len := len;
      this.init := init;
      lastElement := Some(newElement);
      if init.Plain? {
        Contents := init.items + [newElement];
        Repr := {this};
      } else {
        Contents := init.list.Contents + [newElement];
        Repr := {this} + init.list.Repr;
      }
    }

    /** The static snoc: a fresh list of init's elements followed by last; init is left alone. */
    static method SnocOnto(init: AnyList<V>, last: V) returns (r: FastSnocList<V>)
      requires init.Plain? || (init.Fast? && init.list.Valid() && init.list.flattenedList.None?)
      ensures fresh(r) && r.Valid() && r.flattenedList == None && r.lastElement == Some(last)
      ensures init.Plain? ==> r.Contents == init.items + [last] && r.Repr == {r}
      ensures init.Fast? ==> r.Contents == init.list.Contents + [last] && r.Repr == {r} + init.list.Repr
    {
      var n := if init.Plain? then |init.items| else init.list.Size();
      r := new FastSnocList.Cell(n + 1, init, last);
    }

    /** The instance snoc: a fresh list of this list's elements followed by last. */
    method Snoc(last: V) returns (r: FastSnocList<V>)
      requires Valid() && flattenedList.None?
      ensures fresh(r) && r.Valid() && r.flattenedList == None
      ensures r.Contents == Contents + [last] && r.Repr == {r} + Repr
    {
      r := SnocOnto(Fast(this), last);
    }

    /** The number of elements, whether flattened or not. */
    function Size(): (n: int)
      reads this, Repr
      requires Valid()
      ensures n == |Contents|
    {
      if flattenedList.Some? then |flattenedList.value| else len
    }

    /**
     * isEmpty as written: right on a flattened list, but an unflattened list,
     * which always holds an element, reports that it is empty.
     */
    function IsEmpty(): (b: bool)
      reads this, Repr
      requires Valid()
      ensures flattenedList.Some? ==> (b <==> Contents == [])
      ensures flattenedList.None? ==> b && Contents != []
    {
      if flattenedList.Some? then |flattenedList.value| == 0 else len != 0
    }

    /** isEmpty as intended. */
    function IsEmptyCorrected(): (b: bool)
      reads this, Repr
      requires Valid()
      ensures b <==> Contents == []
    {
      if flattenedList.Some? then |flattenedList.value| == 0 else len == 0
    }

    /**
     * Materialises the chain into a flat list of length len: the last element
     * goes at len - 1, each cell of the chain fills the position before, and
     * an ordinary list at the root is copied to the front. The references to
     * the chain are then dropped. A flattened list is left as it is.
     */
    method FlattenList()
      requires Valid()
      modifies this
      ensures Valid() && Contents == old(Contents) && flattenedList == Some(Contents)
      ensures old(flattenedList).Some? ==> unchanged(this)
      ensures old(flattenedList).None? ==>
        init == Null && lastElement == None && len == old(len) && Repr == {this}
    {
      if flattenedList.Some? {
        return;
      }
      var items := Materialise(len, init, lastElement.value, Contents);
      flattenedList := Some(items);
      init := Null;
      lastElement := None;
      Repr := {this};
    }

    /** add(e): appends e, in the flat list or by pushing the old state into a fresh cell. */
    method Add(e: V) returns (changed: bool)
      requires Valid()
      modifies this
      ensures Valid() && Contents == old(Contents) + [e] && changed
      ensures fresh(Repr - old(Repr))
      ensures flattenedList.None? == old(flattenedList).None?
      ensures old(flattenedList).None? ==>
        len == old(len) + 1 && lastElement == Some(e) && init.Fast? &&
        fresh(init.list) && init.list.Contents == old(Contents)
    {
      if flattenedList.Some? {
        flattenedList := Some(flattenedList.value + [e]);
        Contents := Contents + [e];
        return true;
      }
      var previous := new FastSnocList.Cell(len, init, lastElement.value);
      init := Fast(previous);
      len := len + 1;
      lastElement := Some(e);
      Contents := Contents + [e];
      Repr := {this} + previous.Repr;
      changed := true;
    }

    /**
     * addAll(c): appends the elements of c in order. A flattened list reports
     * a change only when c is not empty; the chain path always reports one.
     */
    method AddAll(c: seq<V>) returns (changed: bool)
      requires Valid()
      modifies this
      ensures Valid() && Contents == old(Contents) + c
      ensures changed == (old(flattenedList).None? || c != [])
      ensures fresh(Repr - old(Repr))
      ensures flattenedList.None? == old(flattenedList).None?
    {
      if flattenedList.Some? {
        changed := AddAllFlat(c);
        return;
      }
      var k := 0;
      while k < |c|
        invariant 0 <= k <= |c|
        invariant Valid() && flattenedList.None? && Contents == old(Contents) + c[..k]
        invariant fresh(Repr - old(Repr))
      {
        var _ := Add(c[k]);
        assert c[..k + 1] == c[..k] + [c[k]];
        k := k + 1;
      }
      assert c[..k] == c;
      changed := true;
    }

    /**
     * addAll(index, c) as written: every branch appends c at the end and the
     * index only decides whether the list is flattened first.
     */
    method AddAllAt(index: int, c: seq<V>) returns (changed: bool)
      requires Valid()
      modifies this
      ensures Valid() && Contents == old(Contents) + c
      ensures changed == ((old(flattenedList).None? && index == old(len)) || c != [])
      ensures fresh(Repr - old(Repr))
    {
      if flattenedList.Some? {
        changed := AddAllFlat(c);
      } else if index == len {
        changed := AddAll(c);
      } else {
        FlattenList();
        changed := AddAllFlat(c);
      }
    }

    /** addAll(index, c) as intended: c goes before position index, which must lie in 0..size. */
    method InsertAllAt(index: int, c: seq<V>) returns (ok: bool, changed: bool)
      requires Valid()
      modifies this
      ensures Valid() && fresh(Repr - old(Repr))
      ensures ok == (0 <= index <= |old(Contents)|)
      ensures ok ==> Contents == InsertedAll(old(Contents), index, c) && changed == (c != [])
      ensures !ok ==> Contents == old(Contents) && !changed
    {
      if flattenedList.None? && index == len {
        var _ := AddAll(c);
        ok, changed := true, c != [];
        return;
      }
      FlattenList();
      ok := 0 <= index <= |flattenedList.value|;
      if ok {
        flattenedList := Some(InsertedAll(flattenedList.value, index, c));
        Contents := flattenedList.value;
      }
      changed := ok && c != [];
    }

    /** The flat list's own addAll: appends c and reports whether anything was added. */
    method AddAllFlat(c: seq<V>) returns (changed: bool)
      requires Valid() && flattenedList.Some?
      modifies this
      ensures Valid() && flattenedList.Some? && Contents == old(Contents) + c
      ensures changed == (c != []) && Repr == old(Repr)
    {
      flattenedList := Some(flattenedList.value + c);
      Contents := Contents + c;
      changed := c != [];
    }

    /** clear(): installs an empty flat list; the chain fields are left as they were. */
    method Clear()
      requires Valid()
      modifies this
      ensures Valid() && Contents == [] && flattenedList == Some([]) && Repr == old(Repr)
      ensures len == old(len) && init == old(init) && lastElement == old(lastElement)
    {
      flattenedList := Some([]);
      Contents := [];
    }

    /**
     * get(index): the element at index, or None where the list throws
     * IndexOutOfBoundsException. The last element of an unflattened list is
     * read without flattening; any other read flattens first.
     */
    method Get(index: int) returns (r: Option<V>)
      requires Valid()
      modifies this
      ensures Valid() && Contents == old(Contents) && Repr <= old(Repr)
      ensures r == if 0 <= index < |Contents| then Some(Contents[index]) else None
      ensures old(flattenedList).None? && index == old(len) - 1 ==> unchanged(this)
      ensures !(old(flattenedList).None? && index == old(len) - 1) ==> flattenedList == Some(Contents)
    {
      if flattenedList.Some? {
        r := ElementAt(flattenedList.value, index);
        return;
      }
      if index == len - 1 {
        r := lastElement;
        return;
      }
      FlattenList();
      r := ElementAt(flattenedList.value, index);
    }

    /**
     * set(index, element): replaces the element at index and returns the old
     * one, or None where the list throws IndexOutOfBoundsException. The last
     * element of an unflattened list is replaced in place, without flattening.
     */
    method Set(index: int, element: V) returns (r: Option<V>)
      requires Valid()
      modifies this
      ensures Valid() && Repr <= old(Repr)
      ensures r == if 0 <= index < |old(Contents)| then Some(old(Contents)[index]) else None
      ensures Contents == if 0 <= index < |old(Contents)| then old(Contents)[index := element] else old(Contents)
      ensures old(flattenedList).None? && index == old(len) - 1 ==>
        flattenedList == None && len == old(len) && init == old(init) && lastElement == Some(element)
      ensures !(old(flattenedList).None? && index == old(len) - 1) ==> flattenedList == Some(Contents)
    {
      if flattenedList.None? && index == len - 1 {
        r := lastElement;
        lastElement := Some(element);
        Contents := Contents[index := element];
        return;
      }
      FlattenList();
      r := ElementAt(flattenedList.value, index);
      if r.Some? {
        flattenedList := Some(flattenedList.value[index := element]);
        Contents := flattenedList.value;
      }
    }

    /**
     * add(index, element) as written: on an unflattened list an index one
     * before the end appends the element after the last one instead of
     * inserting it before; every other index inserts, flattening first, and
     * an index outside 0..size is refused (ok is false where the list throws).
     */
    method AddAt(index: int, element: V) returns (ok: bool)
      requires Valid()
      modifies this
      ensures Valid() && fresh(Repr - old(Repr))
      ensures old(flattenedList).None? && index == old(len) - 1 ==>
        ok && Contents == old(Contents) + [element]
      ensures !(old(flattenedList).None? && index == old(len) - 1) ==>
        ok == (0 <= index <= |old(Contents)|) &&
        Contents == if ok then Inserted(old(Contents), index, element) else old(Contents)
    {
      if flattenedList.Some? {
        ok := InsertFlat(index, element);
      } else if index == len - 1 {
        var _ := Add(element);
        ok := true;
      } else {
        FlattenList();
        ok := InsertFlat(index, element);
      }
    }

    /** add(index, element) as intended: only an index equal to the size appends. */
    method InsertAt(index: int, element: V) returns (ok: bool)
      requires Valid()
      modifies this
      ensures Valid() && fresh(Repr - old(Repr))
      ensures ok == (0 <= index <= |old(Contents)|)
      ensures Contents == if ok then Inserted(old(Contents), index, element) else old(Contents)
    {
      if flattenedList.Some? {
        ok := InsertFlat(index, element);
      } else if index == len {
        var _ := Add(element);
        ok := true;
      } else {
        FlattenList();
        ok := InsertFlat(index, element);
      }
    }

    /** The flat list's own add(index, element). */
    method InsertFlat(index: int, element: V) returns (ok: bool)
      requires Valid() && flattenedList.Some?
      modifies this
      ensures Valid() && flattenedList.Some? && Repr == old(Repr)
      ensures ok == (0 <= index <= |old(Contents)|)
      ensures Contents == if ok then Inserted(old(Contents), index, element) else old(Contents)
    {
      ok := 0 <= index <= |flattenedList.value|;
      if ok {
        flattenedList := Some(Inserted(flattenedList.value, index, element));
        Contents := flattenedList.value;
      }
    }
  }

  /** The objects that the list t reaches. */
  ghost function Footprint<V>(t: AnyList<V>): set<object>
    reads if t.Fast? then {t.list} else {}
  {
    if t.Fast? then {t.list} + t.list.Repr else {}
  }

  /** The elements of the list t. */
  ghost function Elements<V>(t: AnyList<V>): seq<V>
    reads Footprint(t)
  {
    match t
    case Plain(items) => items
    case Fast(cell) => cell.Contents
    case Null => []
  }

  /** t is a valid source of the elements s: an ordinary list of them or an unflattened cell holding them. */
  ghost predicate Describes<V>(t: AnyList<V>, s: seq<V>)
    reads Footprint(t)
  {
    match t
    case Plain(items) => items == s
    case Fast(cell) => cell.Valid() && cell.flattenedList.None? && cell.Contents == s
    case Null => false
  }

  /** One step down the chain: a cell holds the last of s, and what it extends holds the rest. */
  lemma CellStep<V>(cell: FastSnocList<V>, s: seq<V>)
    requires Describes(Fast(cell), s)
    ensures |s| >= 1 && cell.lastElement == Some(s[|s| - 1])
    ensures Describes(cell.init, s[..|s| - 1]) && Footprint(cell.init) <= cell.Repr
  {
    assert s == s[..|s| - 1] + [s[|s| - 1]];
  }

  /**
   * The buffer filling of flattenList: the last element goes at len - 1, each
   * cell of the chain fills the position before, and an ordinary list at the
   * root is copied to the front, ending the walk. (The source breaks out of
   * its loop after the copy; the loop here stops at the ordinary list and the
   * copy follows it.) The source allocates the buffer as new ArrayList(len),
   * which has size 0, so its first set would throw; the buffer here has
   * length len, as evidently intended.
   */
  method Materialise<V>(len: int, init: AnyList<V>, last: V, ghost s: seq<V>) returns (items: seq<V>)
    requires 1 <= len == |s| && s[len - 1] == last && Describes(init, s[..len - 1])
    ensures items == s
  {
    var buf := new V[len](_ => last);
    buf[len - 1] := last;
    var initList := init;
    var i := len - 2;
    while i >= 0 && initList.Fast?
      modifies buf
      invariant -1 <= i <= len - 2
      invariant Describes(initList, s[..i + 1]) && buf !in Footprint(initList)
      invariant forall k :: i < k < len ==> buf[k] == s[k]
      decreases i
    {
      var cell := initList.list;
      CellStep(cell, s[..i + 1]);
      buf[i] := cell.lastElement.value;
      initList := cell.init;
      assert s[..i + 1][..i] == s[..i];
      i := i - 1;
    }
    if i >= 0 {
      CopyPrefix(buf, initList.items);
    }
    items := buf[..];
  }

  /** Copies items to the front of buf, one position at a time. */
  method CopyPrefix<V>(buf: array<V>, items: seq<V>)
    requires |items| <= buf.Length
    modifies buf
    ensures buf[..|items|] == items
    ensures forall k :: |items| <= k < buf.Length ==> buf[k] == old(buf[k])
  {
    var j := 0;
    while j < |items|
      invariant 0 <= j <= |items|
      invariant buf[..j] == items[..j]
      invariant forall k :: |items| <= k < buf.Length ==> buf[k] == old(buf[k])
    {
      buf[j] := items[j];
      j := j + 1;
    }
  }

  /** The flat list's own get: the element at index, or None out of range. */
  function ElementAt<V>(s: seq<V>, index: int): (r: Option<V>)
    ensures r.Some? <==> 0 <= index < |s|
    ensures r.Some? ==> r.value == s[index]
  {
    if 0 <= index < |s| then Some(s[index]) else None
  }

  /** Appending after the last element differs from inserting before it whenever the two elements differ. */
  lemma AppendIsNotInsertBeforeLast<V>(s: seq<V>, x: V)
    requires |s| > 0 && s[|s| - 1] != x
    ensures s + [x] != Inserted(s, |s| - 1, x)
  {
    assert (s + [x])[|s| - 1] == s[|s| - 1];
  }

  /** Appending c differs from inserting it before an existing position whenever c starts with another element. */
  lemma AppendIsNotInsertAll<V>(s: seq<V>, i: nat, c: seq<V>)
    requires i < |s| && c != [] && c[0] != s[i]
    ensures s + c != InsertedAll(s, i, c)
  {
    assert (s + c)[i] == s[i];
    assert InsertedAll(s, i, c)[i] == InsertedAll(s, i, c)[i..i + |c|][0] == c[0];
  }

  /** snoc([], 7) is a one-element list whose isEmpty() is true and whose intended isEmpty() is false. */
  method IsEmptyWitness() returns (l: FastSnocList<int>, written: bool, intended: bool)
    ensures l.Valid() && l.Contents == [7]
    ensures written && !intended
  {
    l := FastSnocList.SnocOnto(Plain([]), 7);
    written := l.IsEmpty();
    intended := l.IsEmptyCorrected();
  }

  /** On snoc([], 1), add(0, 2) as written gives [1, 2]; inserting as intended gives [2, 1]. */
  method AddAtWitness() returns (written: FastSnocList<int>, intended: FastSnocList<int>)
    ensures written.Valid() && written.Contents == [1, 2]
    ensures intended.Valid() && intended.Contents == [2, 1]
  {
    written := FastSnocList.SnocOnto(Plain([]), 1);
    var _ := written.AddAt(0, 2);
    intended := FastSnocList.SnocOnto(Plain([]), 1);
    var _ := intended.InsertAt(0, 2);
  }
}
