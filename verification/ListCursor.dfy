/** A list edited in place through a cursor, after the mutable list iterator the
    engine walks its lists with: the cursor sits between elements, and `last` is the
    element it was last stepped over, the one that removal and assignment act on. */
module ListCursor {
  class Cursor<T> {
    var items: seq<T>
    var pos: nat
    var last: int

    ghost predicate Valid()
      reads this
    {
      pos <= |items| && -1 <= last < |items|
    }

    constructor (list: seq<T>)
      ensures Valid() && items == list && pos == 0 && last == -1
    {
      items, pos, last := list, 0, -1;
    }

    predicate HasNext()
      reads this
    {
      pos < |items|
    }

    predicate HasPrevious()
      reads this
    {
      pos > 0
    }

    method ToFront()
      requires Valid()
      modifies `pos, `last
      ensures Valid() && pos == 0 && last == -1
    {
      pos, last := 0, -1;
    }

    method Next() returns (d: T)
      requires Valid() && HasNext()
      modifies `pos, `last
      ensures Valid() && pos == old(pos) + 1 && last == old(pos) && d == items[last]
    {
      last := pos;
      pos := pos + 1;
      d := items[last];
    }

    method Previous() returns (d: T)
      requires Valid() && HasPrevious()
      modifies `pos, `last
      ensures Valid() && pos == old(pos) - 1 && last == pos && d == items[last]
    {
      pos := pos - 1;
      last := pos;
      d := items[last];
    }

    /** Removes the element last stepped over. */
    method Remove()
      requires Valid() && last != -1
      modifies this
      ensures Valid() && items == old(items[..last] + items[last + 1..])
      ensures pos == old(last) && last == -1
    {
      items, pos, last := items[..last] + items[last + 1..], last, -1;
    }

    /** Inserts before the cursor. */
    method Insert(d: T)
      requires Valid()
      modifies this
      ensures Valid() && items == old(items[..pos]) + [d] + old(items[pos..])
      ensures pos == old(pos) + 1 && last == old(pos)
    {
      items, pos, last := items[..pos] + [d] + items[pos..], pos + 1, pos;
    }

    /** Overwrites the element last stepped over. */
    method SetValue(d: T)
      requires Valid() && last != -1
      modifies `items
      ensures Valid() && items == old(items[last := d])
    {
      items := items[last := d];
    }

    /** Overwrites an element through a pointer kept to it. */
    method SetAt(i: nat, d: T)
      requires Valid() && i < |items|
      modifies `items
      ensures Valid() && items == old(items[i := d])
    {
      items := items[i := d];
    }

    method Append(d: T)
      requires Valid()
      modifies `items
      ensures Valid() && items == old(items) + [d]
    {
      items := items + [d];
    }

    /** Drops the last element of the list; no cursor position survives it. */
    method RemoveLast()
      requires Valid() && items != []
      modifies this
      ensures Valid() && items == old(items[..|items| - 1]) && pos == 0 && last == -1
    {
      items, pos, last := items[..|items| - 1], 0, -1;
    }
  }
}
