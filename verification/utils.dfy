/**
 * The helpers of utils.go: a generic LIFO stack backed by a sequence, and
 * the collection of a channel's values into a (sorted) slice. A channel is
 * represented by the finite sequence of values received from it before it
 * is closed.
 */
module Utils {
  import opened Sorting

  /** The elements of `xs` in the opposite order. */
  function Reverse<T>(xs: seq<T>): (r: seq<T>)
    ensures |r| == |xs|
    ensures forall i :: 0 <= i < |xs| ==> r[i] == xs[|xs| - 1 - i]
  {
    if |xs| == 0 then [] else [xs[|xs| - 1]] + Reverse(xs[..|xs| - 1])
  }

  /** `stack[T]`: a slice whose last element is the top of the stack. */
  datatype Stack<T> = Stack(items: seq<T>) {

    /** `make(stack[T], 0)`: the stack holding nothing. */
    static function Empty(): (r: Stack<T>)
      ensures r.Size() == 0
    {
      Stack([])
    }

    /** `size`: the number of stored elements. */
    function Size(): nat {
      |items|
    }

    /**
     * `push`: the new item becomes the top, the size grows by one and the
     * elements already stored stay where they were.
     */
    function Push(item: T): (r: Stack<T>)
      ensures r.Size() == Size() + 1
      ensures r.items[Size()] == item
      ensures forall i :: 0 <= i < Size() ==> r.items[i] == items[i]
    {
      Stack(items + [item])
    }

    /**
     * `peek`: the top element, the one pushed last. It is only defined on a
     * non-empty stack (Go indexes `len - 1`), and the stack is that element
     * pushed onto the rest.
     */
    function Peek(): (top: T)
      requires Size() > 0
      ensures Stack(items[..Size() - 1]).Push(top) == this
    {
      assert items[..Size() - 1] + [items[Size() - 1]] == items;
      items[Size() - 1]
    }

    /**
     * `pop`: returns the top element together with the stack below it, whose
     * size is one less and whose elements are unchanged; pushing the popped
     * element back restores the original stack.
     */
    function Pop(): (r: (T, Stack<T>))
      requires Size() > 0
      ensures r.0 == Peek()
      ensures r.1.Size() == Size() - 1
      ensures forall i :: 0 <= i < r.1.Size() ==> r.1.items[i] == items[i]
      ensures r.1.Push(r.0) == this
    {
      assert items[..Size() - 1] + [items[Size() - 1]] == items;
      (items[Size() - 1], Stack(items[..Size() - 1]))
    }

    /**
     * Pushes the elements of `xs` one after another, first to last: they end
     * up above the stored elements, the last one on top.
     */
    function PushAll(xs: seq<T>): (r: Stack<T>)
      ensures r.items == items + xs
      ensures r.Size() == Size() + |xs|
      ensures |xs| > 0 ==> r.Peek() == xs[|xs| - 1]
    {
      if |xs| == 0 then
        assert items + xs == items;
        this
      else
        assert items + xs[..|xs| - 1] + [xs[|xs| - 1]] == items + xs;
        PushAll(xs[..|xs| - 1]).Push(xs[|xs| - 1])
    }

    /**
     * Pops `n` elements, returning them in the order they were popped: the
     * top `n` elements, topmost first, and the stack of the elements below
     * them.
     */
    function PopN(n: nat): (r: (seq<T>, Stack<T>))
      requires n <= Size()
      ensures r.0 == Reverse(items[Size() - n..])
      ensures r.1 == Stack(items[..Size() - n])
      ensures r.1.Size() == Size() - n
      decreases n
    {
      if n == 0 then
        assert items[Size()..] == [];
        assert items[..Size()] == items;
        ([], this)
      else
        var (top, below) := Pop();
        var (more, bottom) := below.PopN(n - 1);
        var popped := items[Size() - n..];
        assert popped[..|popped| - 1] == below.items[below.Size() - (n - 1)..];
        assert below.items[..below.Size() - (n - 1)] == items[..Size() - n];
        ([top] + more, bottom)
    }
  }

  /** Push followed by pop gives back the pushed item and the original stack. */
  lemma PushPop<T>(s: Stack<T>, x: T)
    ensures s.Push(x).Pop() == (x, s)
  {
    assert (s.items + [x])[..|s.items|] == s.items;
  }

  /**
   * LIFO order: pushing a sequence of items and then popping as many returns
   * them last-in first-out and leaves the stack as it was before the pushes.
   */
  lemma {:induction false} PushAllPopN<T>(s: Stack<T>, xs: seq<T>)
    ensures s.PushAll(xs).PopN(|xs|) == (Reverse(xs), s)
  {
    if |xs| > 0 {
      var init := xs[..|xs| - 1];
      var last := xs[|xs| - 1];
      PushPop(s.PushAll(init), last);
      PushAllPopN(s, init);
    }
  }

  /**
   * `chanToSlice`: receives every value until the channel is closed and
   * returns them in the order they were received.
   */
  method ChanToSlice<T>(received: seq<T>) returns (result: seq<T>)
    ensures |result| == |received|
    ensures forall i :: 0 <= i < |received| ==> result[i] == received[i]
  {
    result := [];
    var i := 0;
    while i < |received|
      invariant 0 <= i <= |received|
      invariant result == received[..i]
    {
      result := result + [received[i]];
      i := i + 1;
    }
  }

  /**
   * `chanToSortedSlice`: every received value exactly once, ordered so that
   * the comparator never puts an element after its successor.
   */
  method ChanToSortedSlice<T(!new)>(received: seq<T>, cmp: (T, T) -> int) returns (result: seq<T>)
    requires StrictWeakOrder(cmp)
    ensures SortedBy(result, cmp)
    ensures multiset(result) == multiset(received)
  {
    var slice := ChanToSlice(received);
    assert slice == received;
    result := SortFunc(slice, cmp);
  }
}
