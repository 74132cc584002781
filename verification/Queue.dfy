/** A first-in first-out queue in a fixed array. When the end of the array is reached, the
entries are moved down over those already read. */
module Queue {

  class StateQueue {
    const q: array<nat>
    var rd: nat
    var wr: nat

    /** An empty queue always starts over at the beginning of the array. */
    ghost predicate Valid()
      reads this, q
    {
      0 < q.Length && rd <= wr <= q.Length && (rd == wr ==> wr == 0)
    }

    ghost function Contents(): seq<nat>
      requires rd <= wr <= q.Length
      reads this, q
    {
      q[rd..wr]
    }

    constructor (capacity: nat)
      requires capacity > 0
      ensures Valid() && fresh(q) && q.Length == capacity && Contents() == []
    {
      q := new nat[capacity];
      rd, wr := 0, 0;
    }

    /** Append; this fails only when the queue holds as many entries as it can. */
    method Push(state: nat) returns (ok: bool)
      requires Valid()
      modifies this, q
      ensures Valid()
      ensures ok <==> |old(Contents())| < q.Length
      ensures Contents() == if ok then old(Contents()) + [state] else old(Contents())
    {
      ghost var before := Contents();
      if wr == q.Length {
        if rd > 0 && rd < wr {
          forall i | 0 <= i < wr - rd {
            q[i] := q[rd + i];
          }
          wr := wr - rd;
          rd := 0;
          assert Contents() == before;
        } else {
          return false;
        }
      }
      q[wr] := state;
      wr := wr + 1;
      assert Contents() == before + [state];
      return true;
    }

    /** Take the entry that was pushed first. */
    method Pop() returns (ok: bool, state: nat)
      requires Valid()
      modifies this`rd, this`wr
      ensures Valid()
      ensures ok <==> old(Contents()) != []
      ensures ok ==> old(Contents()) == [state] + Contents()
      ensures !ok ==> Contents() == old(Contents())
    {
      if rd == wr {
        return false, 0;
      }
      state := q[rd];
      rd := rd + 1;
      if rd == wr {
        rd, wr := 0, 0;
      }
      ok := true;
    }
  }
}
