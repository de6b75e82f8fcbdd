/**
 * The workspace manager as seen by the node kernel: typed buffers are handed
 * out by `Get` and must be handed back by `Release` in last-in first-out
 * order with the same element count. Its pooling and thread safety are not
 * modelled; a ghost stack of outstanding buffers and a ghost log of calls
 * record how it is used.
 */
module Workspace {

  /** Element type of a buffer: the factor's value type T, or int (the row map). */
  datatype Kind = Value | Index

  datatype Event = Acquired(kind: Kind, count: int) | Released(kind: Kind, count: int)

  datatype Held = Held(kind: Kind, buf: array<int>, count: int)

  class WorkspaceManager {
    ghost var Stack: seq<Held>
    ghost var Log: seq<Event>

    constructor ()
      ensures Stack == [] && Log == []
    {
      Stack := [];
      Log := [];
    }

    /** get<T>(count): a fresh buffer of count elements; its contents are unspecified. */
    method Get(kind: Kind, count: int) returns (buf: array<int>)
      requires 0 <= count
      modifies this
      ensures fresh(buf) && buf.Length == count
      ensures Stack == old(Stack) + [Held(kind, buf, count)]
      ensures Log == old(Log) + [Acquired(kind, count)]
    {
      buf := new int[count];
      Stack := Stack + [Held(kind, buf, count)];
      Log := Log + [Acquired(kind, count)];
    }

    /** release<T>(buf, count): only the most recently acquired buffer, with its own count. */
    method Release(kind: Kind, buf: array<int>, count: int)
      requires Stack != [] && Stack[|Stack| - 1] == Held(kind, buf, count)
      modifies this
      ensures Stack == old(Stack)[..|old(Stack)| - 1]
      ensures Log == old(Log) + [Released(kind, count)]
    {
      Stack := Stack[..|Stack| - 1];
      Log := Log + [Released(kind, count)];
    }
  }

  /** Two calls logged one after the other. */
  lemma LogOfTwo(log: seq<Event>, a: Event, b: Event)
    ensures log + [a] + [b] == log + [a, b]
  {
    assert [a] + [b] == [a, b];
  }

  /** Four calls logged one after the other. */
  lemma LogOfFour(log: seq<Event>, a: Event, b: Event, c: Event, d: Event)
    ensures log + [a] + [b] + [c] + [d] == log + [a, b, c, d]
  {
    assert [a] + [b] + [c] + [d] == [a, b, c, d];
  }
}
