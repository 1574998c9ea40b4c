/**
 * The arena slot of `priority_queue/src/node.rs`: a value cell that may be
 * uninitialised (`MaybeUninit<T>`, modelled as `Option<T>`) and a `next`
 * index into the same arena.
 */
module NodeSlot {
  import opened Wrappers

  /** Largest number of slots a `u16` index can address. */
  const MaxSlots: nat := 0x1_0000

  /** `NodePtr = u16`: every head, tail, free, min and next index. */
  type NodePtr = x: int | 0 <= x < MaxSlots

  datatype Node<T> = Node(value: Option<T>, next: Option<NodePtr>) {

    /** The value cell has been written by `New`. */
    predicate Initialized() {
      value.Some?
    }

    /** Reading the value cell; only allowed once it has been written. */
    function Read(): T
      requires Initialized()
    {
      value.value
    }
  }

  /** `Node::new(data, ptr)`: an initialised slot linked to `ptr`. */
  function New<T>(data: T, ptr: Option<NodePtr>): (n: Node<T>)
    ensures n.Initialized() && n.Read() == data
    ensures n.next == ptr
  {
    Node(Some(data), ptr)
  }

  /** `Node::new_uninit()`: a slot whose value must not be read, linked to nothing. */
  function NewUninit<T>(): (n: Node<T>)
    ensures !n.Initialized()
    ensures n.next == None
  {
    Node(None, None)
  }
}
