/** The linked-list stack of StackTest.java: `top` points to the most recently
    pushed node, each node to the one pushed before it. */
module LinkedStack {

  /** A chain of nodes; `Nil` is the Java `null`. */
  datatype Node = Nil | Node(data: int, next: Node)

  datatype Stack = Stack(top: Node)

  /** The values from the top of the stack to its bottom. */
  function Contents(n: Node): seq<int>
  {
    match n
    case Nil => []
    case Node(d, rest) => [d] + Contents(rest)
  }

  /** The constructor: `top` is null. */
  function NewStack(): (s: Stack)
    ensures Contents(s.top) == []
  {
    Stack(Nil)
  }

  /** `push`: the new value goes on top, above everything already there. */
  function Push(s: Stack, x: int): (r: Stack)
    ensures Contents(r.top) == [x] + Contents(s.top)
  {
    Stack(Node(x, s.top))
  }

  /** The result of `pop`: the value returned, the stack left, and whether
      the "List is already empty" message was printed. */
  datatype Popped = Popped(value: int, rest: Stack, reportedEmpty: bool)

  /** `pop`: removes and returns the top value; on an empty stack the null
      dereference is caught, the message is printed and 0 is returned with
      the stack unchanged. */
  function Pop(s: Stack): (r: Popped)
    ensures Contents(s.top) == [] ==> r == Popped(0, s, true)
    ensures Contents(s.top) != [] ==>
              && !r.reportedEmpty
              && r.value == Contents(s.top)[0]
              && Contents(r.rest.top) == Contents(s.top)[1..]
  {
    match s.top
    case Nil => Popped(0, s, true)
    case Node(x, next) => Popped(x, Stack(next), false)
  }

  /** `display`: walks the chain from `top`, emitting each value. */
  method Display(s: Stack) returns (out: seq<int>)
    ensures out == Contents(s.top)
  {
    var t := s.top;
    out := [];
    while t != Nil
      invariant out + Contents(t) == Contents(s.top)
      decreases t
    {
      out := out + [t.data];
      t := t.next;
    }
  }

  /** `pop` undoes `push`. */
  lemma PopPush(s: Stack, x: int)
    ensures Pop(Push(s, x)) == Popped(x, s, false)
  {
  }

  function Reverse(xs: seq<int>): (r: seq<int>)
    ensures |r| == |xs|
  {
    if xs == [] then [] else Reverse(xs[1..]) + [xs[0]]
  }

  /** Pushes the values of `xs` in order. */
  function PushAll(s: Stack, xs: seq<int>): Stack
    decreases |xs|
  {
    if xs == [] then s else PushAll(Push(s, xs[0]), xs[1..])
  }

  /** Last in, first out: after pushing `xs` the stack shows them in reverse
      order, above what was there before. */
  lemma {:induction false} PushAllReverses(s: Stack, xs: seq<int>)
    ensures Contents(PushAll(s, xs).top) == Reverse(xs) + Contents(s.top)
    decreases |xs|
  {
    if xs != [] {
      PushAllReverses(Push(s, xs[0]), xs[1..]);
      assert Reverse(xs[1..]) + ([xs[0]] + Contents(s.top)) == Reverse(xs) + Contents(s.top);
    }
  }

  /** Popping after pushing `xs` returns the values of `xs` last first. */
  lemma {:induction false} PopAllAfterPushAll(s: Stack, xs: seq<int>)
    requires xs != []
    ensures Pop(PushAll(s, xs)).value == xs[|xs| - 1]
    ensures Contents(Pop(PushAll(s, xs)).rest.top) == Contents(PushAll(s, xs[..|xs| - 1]).top)
  {
    var init, last := xs[..|xs| - 1], xs[|xs| - 1];
    assert init + [last] == xs;
    PushAllReverses(s, xs);
    PushAllReverses(s, init);
    ReverseSnoc(init, last);
    var c := Contents(PushAll(s, xs).top);
    assert c == [last] + (Reverse(init) + Contents(s.top));
  }

  lemma {:induction false} ReverseSnoc(xs: seq<int>, x: int)
    ensures Reverse(xs + [x]) == [x] + Reverse(xs)
  {
    if xs != [] {
      assert (xs + [x])[1..] == xs[1..] + [x];
      ReverseSnoc(xs[1..], x);
    } else {
      assert Reverse([x]) == Reverse([]) + [x];
    }
  }

  /** The run of `main`: after pushing 10, 3, 11 and 7 the display shows
      7 11 3 10; `pop` returns 7 and the display then shows 11 3 10. */
  lemma MainScenario()
    ensures Contents(PushAll(NewStack(), [10, 3, 11, 7]).top) == [7, 11, 3, 10]
    ensures Pop(PushAll(NewStack(), [10, 3, 11, 7])).value == 7
    ensures Contents(Pop(PushAll(NewStack(), [10, 3, 11, 7])).rest.top) == [11, 3, 10]
  {
    PushAllReverses(NewStack(), [10, 3, 11, 7]);
    assert Reverse([10, 3, 11, 7]) == [7, 11, 3, 10] by {
      assert [10, 3, 11, 7][1..] == [3, 11, 7];
      assert [3, 11, 7][1..] == [11, 7];
      assert [11, 7][1..] == [7];
      assert [7][1..] == [];
    }
  }
}
