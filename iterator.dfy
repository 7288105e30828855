/**
 * The cleanup list of an iterator: clients register function/argument
 * triples to be run when the iterator is destroyed. The list's head node is
 * inlined in the iterator, so only the head may be unused.
 *
 * Function pointers and their `void*` arguments are foreign to the model:
 * a function is an opaque name, an argument an opaque address, and running
 * a node yields the call it makes.
 */
module Iterator {
  import opened Wrappers

  /** A CleanupFunction, `void (*)(void* arg1, void* arg2)`, by name. */
  datatype CleanupFunction = CleanupFunction(name: nat)

  /** A call `(*fn)(arg1, arg2)`. */
  datatype Call = Call(fn: CleanupFunction, arg1: nat, arg2: nat)

  /** CleanupNode: a function (or nullptr), its two arguments and the next node. */
  datatype CleanupNode = CleanupNode(callback: Option<CleanupFunction>, arg1: nat, arg2: nat, next: Option<CleanupNode>)
  {
    /** IsEmpty(): the node is unused exactly when its function is null. */
    predicate IsEmpty()
    {
      callback.None?
    }

    /** Run(): invokes the cleanup function, which must be present, on the node's arguments. */
    function Run(): (call: Call)
      requires !IsEmpty()
      ensures call.fn == callback.value && call.arg1 == arg1 && call.arg2 == arg2
    {
      Call(callback.value, arg1, arg2)
    }
  }

  /** The number of nodes from `n` to the end of the list. */
  function Length(n: CleanupNode): nat
  {
    1 + (if n.next.None? then 0 else Length(n.next.value))
  }

  /** Every node from `n` on is in use. */
  predicate AllInUse(n: CleanupNode)
  {
    !n.IsEmpty() && (n.next.None? || AllInUse(n.next.value))
  }

  /** Only a head node may be unused: every node after the head has a function. */
  predicate WellFormedList(head: CleanupNode)
  {
    head.next.None? || AllInUse(head.next.value)
  }

  /** The calls the used nodes from `n` on make, in list order. */
  function Calls(n: CleanupNode): seq<Call>
  {
    (if n.IsEmpty() then [] else [n.Run()]) + (if n.next.None? then [] else Calls(n.next.value))
  }

  /** In a list whose nodes are all in use, every node makes exactly one call. */
  lemma {:induction false} AllInUseCalls(n: CleanupNode)
    requires AllInUse(n)
    ensures |Calls(n)| == Length(n)
  {
    if n.next.Some? {
      AllInUseCalls(n.next.value);
    }
  }

  /** An unused node makes no call; a used one makes its own call before the rest of the list's. */
  lemma IsEmptyMeansNoCall(n: CleanupNode)
    ensures n.IsEmpty() ==> Calls(n) == (if n.next.None? then [] else Calls(n.next.value))
    ensures !n.IsEmpty() ==> |Calls(n)| >= 1 && Calls(n)[0] == Call(n.callback.value, n.arg1, n.arg2)
    ensures n.next.None? ==> (Calls(n) == [] <==> n.IsEmpty())
  {
  }

  /** A well-formed list makes one call per node, less one for an unused head. */
  lemma ListCalls(head: CleanupNode)
    requires WellFormedList(head)
    ensures |Calls(head)| == Length(head) - (if head.IsEmpty() then 1 else 0)
  {
    if head.next.Some? {
      AllInUseCalls(head.next.value);
    }
  }
}
