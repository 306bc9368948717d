/** Scheduler::CommandChunk: a fixed 0x8000-byte arena into which type-erased
  * commands are placed at aligned offsets and chained, in recording order,
  * on an intrusive singly linked list. */
module SchedulerChunk {
  import opened CommonTypes
  import opened Align

  /** sizeof(data): the arena holds 0x8000 bytes. */
  const ArenaSize: nat := 0x8000

  /** TypedCommand is declared alignas(16). */
  const MinCommandAlign: nat := 16

  /** What a recorded lambda does once executed against the command buffer
    * manager. Ordinary commands are opaque tokens; the one the scheduler
    * itself records on submission carries its captured values. */
  datatype Payload =
    | Opaque(tag: nat)
    | SubmitCommandBuffer(fenceCounter: nat, submitOnWorkerThread: bool, waitForCompletion: bool,
                          presentSwapChain: Handle, presentImageIndex: u32)

  /** A command together with the layout of its TypedCommand<T> wrapper. */
  datatype Command = Command(payload: Payload, size: nat, align: nat)

  /** What the compiler guarantees of every TypedCommand<T> that Record accepts:
    * its alignment is a power of two and at least 16, its size a non-zero
    * multiple of its alignment, and the static_assert keeps it below the arena. */
  predicate WellFormed(c: Command)
  {
    IsPowerOfTwo(c.align) && c.align >= MinCommandAlign &&
    c.size % c.align == 0 && 0 < c.size < ArenaSize
  }

  /** One placed TypedCommand: the command, the byte offset it was constructed
    * at and its `next` link (an index into the chunk's nodes). */
  datatype Node = Node(command: Command, at: nat, next: Option<nat>)

  /** The commands of a node sequence, in node order. */
  function CommandsOf(nodes: seq<Node>): seq<Command>
  {
    if nodes == [] then [] else [nodes[0].command] + CommandsOf(nodes[1..])
  }

  /** CommandsOf lists the nodes' commands one for one, in node order. */
  lemma {:induction false} CommandsOfNodes(nodes: seq<Node>)
    ensures |CommandsOf(nodes)| == |nodes|
    ensures forall i :: 0 <= i < |nodes| ==> CommandsOf(nodes)[i] == nodes[i].command
  {
    if nodes != [] {
      CommandsOfNodes(nodes[1..]);
    }
  }

  lemma ArenaSizeIsPowerOfTwo()
    ensures IsPowerOfTwo(ArenaSize)
  {
    assert IsPowerOfTwo(2);
    assert IsPowerOfTwo(4);
    assert IsPowerOfTwo(8);
    assert IsPowerOfTwo(0x10);
    assert IsPowerOfTwo(0x20);
    assert IsPowerOfTwo(0x40);
    assert IsPowerOfTwo(0x80);
    assert IsPowerOfTwo(0x100);
    assert IsPowerOfTwo(0x200);
    assert IsPowerOfTwo(0x400);
    assert IsPowerOfTwo(0x800);
    assert IsPowerOfTwo(0x1000);
    assert IsPowerOfTwo(0x2000);
    assert IsPowerOfTwo(0x4000);
  }

  /** Every command's alignment divides the arena size, so aligning an offset
    * inside the arena keeps it inside the arena. */
  lemma AlignedOffsetStaysInArena(c: Command, offset: nat)
    requires WellFormed(c) && offset <= ArenaSize
    ensures AlignUp(offset, c.align) <= ArenaSize
  {
    ArenaSizeIsPowerOfTwo();
    PowerOfTwoDivides(c.align, ArenaSize);
    AlignUpStaysWithin(offset, c.align, ArenaSize);
  }

  /** Whether Record places `c` when the write offset is `offset`. */
  predicate Fits(c: Command, offset: nat)
    requires c.align > 0
  {
    AlignUp(offset, c.align) <= ArenaSize - c.size
  }

  /** The static_assert makes every command fit into an empty chunk. */
  lemma EmptyChunkFitsEveryCommand(c: Command)
    requires WellFormed(c)
    ensures Fits(c, 0) && AlignUp(0, c.align) == 0
  {
    AlignUpOfMultiple(0, c.align);
  }

  /** A node holds a command the compiler accepts, constructed at an offset
    * that is a multiple of its alignment. */
  predicate Placed(n: Node)
  {
    WellFormed(n.command) && n.at % n.command.align == 0
  }

  /** The nodes are linked in order: each one's `next` is the one after it. */
  ghost predicate Chained(nodes: seq<Node>)
  {
    forall i :: 0 <= i < |nodes| ==> nodes[i].next == (if i + 1 < |nodes| then Some(i + 1) else None)
  }

  /** Each node ends before the next one begins, and the last one ends at or
    * below the write offset. */
  ghost predicate Disjoint(nodes: seq<Node>, offset: nat)
  {
    && (forall i :: 0 <= i < |nodes| - 1 ==> nodes[i].at + nodes[i].command.size <= nodes[i + 1].at)
    && (nodes != [] ==> nodes[|nodes| - 1].at + nodes[|nodes| - 1].command.size <= offset)
  }

  /** The chunk's invariant, on values: the nodes form the list
    * first -> ... -> last in placement order; each lies, aligned and without
    * overlap, below the write offset, which never passes the end of the arena. */
  ghost predicate ListValid(nodes: seq<Node>, first: Option<nat>, last: Option<nat>, offset: nat)
  {
    && offset <= ArenaSize
    && (nodes == [] ==> first == None && last == None && offset == 0)
    && (nodes != [] ==> first == Some(0) && last == Some(|nodes| - 1))
    && (forall i :: 0 <= i < |nodes| ==> Placed(nodes[i]))
    && Chained(nodes)
    && Disjoint(nodes, offset)
  }

  /** The nodes after placing `c` at `at` and linking it after the last node. */
  function Linked(nodes: seq<Node>, c: Command, at: nat): (r: seq<Node>)
    ensures |r| == |nodes| + 1
    ensures r[|nodes|] == Node(c, at, None)
    ensures forall i :: 0 <= i < |nodes| ==> r[i].command == nodes[i].command && r[i].at == nodes[i].at
    ensures forall i :: 0 <= i < |nodes| ==> r[i].next == Some(i + 1) || (i < |nodes| - 1 && r[i].next == nodes[i].next)
  {
    var appended := nodes + [Node(c, at, None)];
    if nodes == [] then appended
    else appended[|nodes| - 1 := appended[|nodes| - 1].(next := Some(|nodes|))]
  }

  lemma LinkedChained(nodes: seq<Node>, c: Command, at: nat)
    requires Chained(nodes)
    ensures Chained(Linked(nodes, c, at))
  {
    var r := Linked(nodes, c, at);
    forall i | 0 <= i < |r|
      ensures r[i].next == (if i + 1 < |r| then Some(i + 1) else None)
    {
    }
  }

  lemma LinkedPlaced(nodes: seq<Node>, c: Command, at: nat)
    requires forall i :: 0 <= i < |nodes| ==> Placed(nodes[i])
    requires WellFormed(c) && at % c.align == 0
    ensures forall i :: 0 <= i < |nodes| + 1 ==> Placed(Linked(nodes, c, at)[i])
  {
    var r := Linked(nodes, c, at);
    forall i | 0 <= i < |r|
      ensures Placed(r[i])
    {
      if i < |nodes| {
        assert Placed(nodes[i]);
      }
    }
  }

  lemma LinkedDisjoint(nodes: seq<Node>, offset: nat, c: Command, at: nat)
    requires Disjoint(nodes, offset) && offset <= at
    ensures Disjoint(Linked(nodes, c, at), at + c.size)
  {
    var r := Linked(nodes, c, at);
    forall i | 0 <= i < |r| - 1
      ensures r[i].at + r[i].command.size <= r[i + 1].at
    {
      if i < |nodes| - 1 {
        assert r[i + 1].at == nodes[i + 1].at;
      }
    }
  }

  lemma DisjointWiden(nodes: seq<Node>, offset: nat, offset': nat)
    requires Disjoint(nodes, offset) && offset <= offset'
    ensures Disjoint(nodes, offset')
  {
  }

  lemma LinkedCommands(nodes: seq<Node>, c: Command, at: nat)
    ensures CommandsOf(Linked(nodes, c, at)) == CommandsOf(nodes) + [c]
  {
    var before, after := CommandsOf(nodes), CommandsOf(Linked(nodes, c, at));
    CommandsOfNodes(nodes);
    CommandsOfNodes(Linked(nodes, c, at));
    forall i | 0 <= i < |after|
      ensures after[i] == (before + [c])[i]
    {
    }
    assert after == before + [c];
  }

  /** Placing a well-formed command at the aligned offset, when it fits, keeps
    * the list well formed and appends exactly that command. */
  lemma LinkedValid(nodes: seq<Node>, first: Option<nat>, last: Option<nat>, offset: nat, c: Command)
    requires ListValid(nodes, first, last, offset) && WellFormed(c)
    requires AlignUp(offset, c.align) <= ArenaSize - c.size
    ensures var at := AlignUp(offset, c.align);
      ListValid(Linked(nodes, c, at), if nodes == [] then Some(0) else first, Some(|nodes|), at + c.size)
    ensures CommandsOf(Linked(nodes, c, AlignUp(offset, c.align))) == CommandsOf(nodes) + [c]
  {
    var at := AlignUp(offset, c.align);
    LinkedChained(nodes, c, at);
    LinkedPlaced(nodes, c, at);
    LinkedDisjoint(nodes, offset, c, at);
    LinkedCommands(nodes, c, at);
  }

  /** A refused command leaves the list alone; only the write offset moves up
    * to the alignment boundary, which stays inside the arena. */
  lemma RefusedKeepsValid(nodes: seq<Node>, first: Option<nat>, last: Option<nat>, offset: nat, c: Command)
    requires ListValid(nodes, first, last, offset) && WellFormed(c) && !Fits(c, offset)
    ensures ListValid(nodes, first, last, AlignUp(offset, c.align))
  {
    AlignedOffsetStaysInArena(c, offset);
    EmptyChunkFitsEveryCommand(c);
    DisjointWiden(nodes, offset, AlignUp(offset, c.align));
  }

  class CommandChunk {
    var nodes: seq<Node>
    var first: Option<nat>
    var last: Option<nat>
    var commandOffset: nat
    /** The recorded commands, in list order. */
    ghost var commands: seq<Command>

    /** The chunk's invariant: the nodes form the list first -> ... -> last in
      * placement order; each lies, aligned and without overlap, below the
      * write offset, which never passes the end of the arena. */
    ghost predicate Valid()
      reads this
    {
      ListValid(nodes, first, last, commandOffset) && commands == CommandsOf(nodes)
    }

    constructor ()
      ensures Valid() && commands == [] && commandOffset == 0
    {
      nodes, first, last, commandOffset := [], None, None, 0;
      commands := [];
    }

    /** Empty() tests only the write offset; that means "no command recorded". */
    function Empty(): (r: bool)
      reads this
      requires Valid()
      ensures r <==> nodes == []
    {
      commandOffset == 0
    }

    /** Record: round the offset up to the command's alignment; refuse the
      * command if it would pass the end of the arena; otherwise construct it
      * there, link it after the previous last (or make it first) and advance
      * the offset by its size. The rounded offset is kept even on refusal. */
    method Record(c: Command) returns (ok: bool)
      requires Valid() && WellFormed(c)
      modifies this
      ensures Valid()
      ensures ok <==> Fits(c, old(commandOffset))
      ensures commandOffset == AlignUp(old(commandOffset), c.align) + (if ok then c.size else 0)
      ensures commands == old(commands) + (if ok then [c] else [])
      ensures !ok ==> nodes == old(nodes) && first == old(first) && last == old(last)
      ensures ok ==> nodes == Linked(old(nodes), c, AlignUp(old(commandOffset), c.align))
      ensures ok ==> last == Some(|old(nodes)|) && first == (if old(nodes) == [] then last else old(first))
    {
      commandOffset := AlignUp(commandOffset, c.align);
      if commandOffset > ArenaSize - c.size {
        RefusedKeepsValid(nodes, first, last, old(commandOffset), c);
        return false;
      }
      LinkedValid(nodes, first, last, old(commandOffset), c);
      Link(c, commandOffset);
      commandOffset := commandOffset + c.size;
      commands := commands + [c];
      ok := true;
    }

    /** Construct the command at `at` and link it after the previous last
      * node, or make it the first one when the list is empty. */
    method Link(c: Command, at: nat)
      requires nodes == [] <==> last == None
      requires last.Some? ==> last.value == |nodes| - 1
      modifies this`nodes, this`first, this`last
      ensures nodes == Linked(old(nodes), c, at)
      ensures last == Some(|old(nodes)|) && first == (if old(nodes) == [] then last else old(first))
    {
      var index := |nodes|;
      var currentLast := last;
      nodes := nodes + [Node(c, at, None)];
      last := Some(index);
      if currentLast.Some? {
        nodes := nodes[currentLast.value := nodes[currentLast.value].(next := last)];
      } else {
        first := last;
      }
    }

    /** ExecuteAll: walk the list from first, following each node's link,
      * running every command once, then reset the chunk to empty. Returns the
      * commands in the order they ran. */
    method ExecuteAll() returns (executed: seq<Command>)
      requires Valid()
      modifies this
      ensures Valid()
      ensures executed == old(commands)
      ensures nodes == [] && commands == [] && commandOffset == 0 && first == None && last == None
    {
      CommandsOfNodes(nodes);
      var command := first;
      executed := [];
      while command.Some?
        invariant command.Some? ==> command.value < |nodes| && executed == commands[..command.value]
        invariant command.None? ==> executed == commands
        decreases if command.Some? then |nodes| - command.value else 0
      {
        var node := nodes[command.value];
        executed := executed + [node.command];
        command := node.next;
      }
      commandOffset := 0;
      first := None;
      last := None;
      nodes := [];
      commands := [];
    }
  }
}
