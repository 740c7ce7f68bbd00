/** The dynamic argument store: a vector of arguments, a table of names, and the nodes that own copied values. */
module ArgStore {
  import opened Arith
  import opened SafeCast
  import opened Wrappers

  /** An argument's value: a number is stored in place, a string or an object of a custom type needs a copy. */
  datatype Value = Number(n: int) | Str(s: string) | Custom(id: int)

  /** What `need_copy` holds for. */
  type Copied = v: Value | !v.Number? witness Str("")

  /** A variable of the caller that `std::reference_wrapper` refers to; it is never of a built-in number type. */
  class Cell {
    var value: Copied

    constructor (v: Copied)
      ensures value == v
    {
      value := v;
    }
  }

  /** What can be pushed: a value, a reference to a variable, or a view of characters of the caller. */
  datatype Param = ByValue(v: Value) | ByReference(cell: Cell) | ByView(text: array<char>)

  /** `need_copy` */
  predicate NeedCopy(p: Param) {
    p.ByValue? && !p.v.Number?
  }

  /** `typed_node`; `alive` is false once the node has been destroyed. */
  class Node {
    const value: Value
    var next: Node?
    ghost var alive: bool

    constructor (v: Value)
      ensures value == v && next == null && alive
    {
      value, next, alive := v, null, true;
    }
  }

  /**
   * One `basic_format_arg`: the header slot, which points at the table of names,
   * a value in place, or a pointer to a node, to the caller's variable or to the
   * caller's characters.
   */
  datatype Entry =
    | Header(table: nat, size: nat)
    | Inline(v: Value)
    | Owned(node: Node)
    | Borrowed(cell: Cell)
    | Viewed(text: array<char>)

  /** `named_arg_info`: a pointer to the owned name, and the argument's index. */
  datatype NamedInfo = NamedInfo(name: Node, id: nat)

  /** The entry stands for the pushed argument, now and at any later time. */
  predicate StandsFor(e: Entry, p: Param) {
    match p
    case ByReference(c) => e == Borrowed(c)
    case ByView(t) => e == Viewed(t)
    case ByValue(v) => if NeedCopy(p) then e.Owned? && e.node.value == v else e == Inline(v)
  }

  /** The position of the first pair with the given name. */
  function FirstNamed(names: seq<(string, nat)>, name: string): (r: Option<nat>)
    ensures r.Some? ==> r.value < |names| && names[r.value].0 == name
    ensures forall i :: 0 <= i < (if r.Some? then r.value else |names|) ==> names[i].0 != name
  {
    if names == [] then None
    else if names[0].0 == name then Some(0)
    else
      var rest := FirstNamed(names[1..], name);
      if rest.Some? then Some(rest.value + 1) else None
  }

  /** The vector is the pushed arguments in order, behind a header slot if there are names. */
  ghost predicate Holds(data: seq<Entry>, params: seq<Param>, named: bool) {
    var offset := if named then 1 else 0;
    && |data| == offset + |params|
    && (named ==> data[0].Header?)
    && (forall i {:trigger params[i]} :: 0 <= i < |params| ==> StandsFor(data[offset + i], params[i]))
  }

  ghost predicate OwnedAmong(data: seq<Entry>, nodes: seq<Node>) {
    forall i :: 0 <= i < |data| && data[i].Owned? ==> data[i].node in nodes
  }

  /** The owner list has grown at its head, and every older node is where it was. */
  ghost predicate Extends(before: seq<Node>, after: seq<Node>) {
    |before| <= |after| && after[|after| - |before|..] == before
  }

  lemma ExtendsKeeps(before: seq<Node>, after: seq<Node>, n: Node)
    requires Extends(before, after) && n in before
    ensures n in after
  {
  }

  lemma ExtendsTwice(a: seq<Node>, b: seq<Node>, c: seq<Node>)
    requires Extends(a, b) && Extends(b, c)
    ensures Extends(a, c)
  {
  }

  /** The table has every name with the position of its push. */
  ghost predicate Tabled(info: seq<NamedInfo>, names: seq<(string, nat)>, nodes: seq<Node>, count: nat) {
    && |info| == |names|
    && forall i :: 0 <= i < |names| ==>
         && info[i].name in nodes
         && info[i].name.value == Str(names[i].0)
         && info[i].id == names[i].1 < count
  }

  /** The vector after pushing a named argument. */
  function NamedData(data: seq<Entry>, named: bool, e: Entry, h: Entry): seq<Entry>
    requires named ==> data != []
  {
    var slot := if named then [] else [Header(0, 0)];
    (slot + data + [e])[0 := h]
  }

  /** The vector, the table and the owner list represent the pushed arguments and names. */
  ghost predicate Represents(data: seq<Entry>, info: seq<NamedInfo>, nodes: seq<Node>,
                             params: seq<Param>, names: seq<(string, nat)>) {
    && Holds(data, params, info != [])
    && OwnedAmong(data, nodes)
    && Tabled(info, names, nodes, |params|)
  }

  lemma RepresentsMoreNodes(data: seq<Entry>, info: seq<NamedInfo>, before: seq<Node>, after: seq<Node>,
                            params: seq<Param>, names: seq<(string, nat)>)
    requires Represents(data, info, before, params, names) && Extends(before, after)
    ensures Represents(data, info, after, params, names)
  {
  }

  lemma RepresentsOneMore(data: seq<Entry>, info: seq<NamedInfo>, nodes: seq<Node>,
                          params: seq<Param>, names: seq<(string, nat)>, e: Entry, p: Param)
    requires Represents(data, info, nodes, params, names)
    requires StandsFor(e, p) && (e.Owned? ==> e.node in nodes)
    ensures Represents(data + [e], info, nodes, params + [p], names)
  {
  }

  lemma RepresentsOneNamed(data: seq<Entry>, info: seq<NamedInfo>, nodes: seq<Node>,
                           params: seq<Param>, names: seq<(string, nat)>,
                           e: Entry, p: Param, node: Node, name: string, h: Entry)
    requires Represents(data, info, nodes, params, names)
    requires StandsFor(e, p) && (e.Owned? ==> e.node in nodes) && h.Header?
    requires node in nodes && node.value == Str(name)
    ensures info != [] ==> data != []
    ensures |data| == |params| + if info != [] then 1 else 0
    ensures Represents(NamedData(data, info != [], e, h), info + [NamedInfo(node, |params|)], nodes,
                       params + [p], names + [(name, |params|)])
  {
  }

  /** The header slot points at the present block of the table, and then describes all of it, or at an earlier one. */
  ghost predicate HeaderInPast(data: seq<Entry>, info: seq<NamedInfo>, table: nat) {
    info != [] ==> data != [] && data[0].Header? && data[0].table <= table && (data[0].table == table ==> data[0].size == |info|)
  }

  /** The nodes from a head on are linked in this order. */
  ghost predicate Linked(head: Node?, nodes: seq<Node>)
    reads nodes
  {
    && (nodes == [] ==> head == null)
    && (nodes != [] ==> head == nodes[0] && nodes[|nodes| - 1].next == null)
    && (forall i {:trigger nodes[i]} :: 0 <= i < |nodes| - 1 ==> nodes[i].next == nodes[i + 1])
  }

  /** The destructor of `dynamic_arg_list`: every node is destroyed, from the head on. */
  method Destroy(head: Node?, ghost nodes: seq<Node>)
    requires Linked(head, nodes)
    modifies (set n | n in nodes)`alive
    ensures forall n :: n in nodes ==> !n.alive
  {
    var node := head;
    ghost var i := 0;
    while node != null
      invariant i <= |nodes| && Linked(head, nodes)
      invariant if i < |nodes| then node == nodes[i] else node == null
      invariant forall k :: 0 <= k < i ==> !nodes[k].alive
      decreases |nodes| - i
    {
      ghost var n: Node := node;
      n.alive := false;
      node := node.next;
      i := i + 1;
    }
  }

  /** What an argument is worth now. */
  function Present(p: Param): Value
    reads match p { case ByValue(_) => {} case ByReference(c) => {c} case ByView(t) => {t} }
  {
    match p
    case ByValue(v) => v
    case ByReference(c) => c.value
    case ByView(t) => Str(t[..])
  }

  /** `get` by position finds an argument, declines, or reads past the end of the vector. */
  datatype Fetched = Arg(v: Value) | NoArg | OutOfBounds

  /** `get_id` finds a position, finds nothing, or reads a released table. */
  datatype Found = At(id: nat) | Missing | Dangling

  /** `max_size`: the description without its highest bit, as an int; bit 62 says that there are names. */
  function MaxSize(size: nat, hasNamed: bool): int {
    INT32.Cast(size + if hasNamed then 0x4000_0000_0000_0000 else 0)
  }

  lemma MaxSizeIsSize(size: nat, hasNamed: bool)
    requires size <= INT32.Max()
    ensures MaxSize(size, hasNamed) == size
  {
    DivUnique(size + 0x4000_0000_0000_0000, 0x1_0000_0000, 0x4000_0000, size);
  }

  /** The guard of `get` lets a position pass that is not in the vector exactly if there are names and it is the next one. */
  lemma GuardPassesOnePast(count: nat, hasNamed: bool, id: nat)
    requires count < INT32.Max()
    ensures id < MaxSize(count + (if hasNamed then 1 else 0), hasNamed) && id >= count <==> hasNamed && id == count
  {
    MaxSizeIsSize(count + (if hasNamed then 1 else 0), hasNamed);
  }

  /** A store with one named argument: position 1 passes the guard and lies past the end. */
  method ReadsPastTheEnd() returns (r: Fetched)
    ensures r.OutOfBounds?
  {
    hide Represents, HeaderInPast;
    var store := new Store();
    store.PushNamed("a", ByValue(Number(0)));
    GuardPassesOnePast(1, true, 1);
    r := store.Get(1);
  }

  class Store {
    var data: seq<Entry>
    var namedInfo: seq<NamedInfo>
    /** The identity of the memory block that holds `namedInfo`, and its capacity. */
    var table: nat
    var capacity: nat
    var head: Node?
    /** The owner list from the head on, and what has been pushed since the last clear. */
    ghost var nodes: seq<Node>
    ghost var params: seq<Param>
    ghost var names: seq<(string, nat)>

    ghost predicate ListValid()
      reads this`head, this`nodes, nodes
    {
      Linked(head, nodes) && forall n :: n in nodes ==> n.alive
    }

    /**
     * The vector holds exactly the pushed arguments in order, behind a header
     * slot that is there exactly when some name is; the table holds the names
     * with the positions of their pushes; and every pointer leads to a live node.
     */
    ghost predicate Valid()
      reads this, nodes
    {
      && ListValid()
      && Represents(data, namedInfo, nodes, params, names)
      && |namedInfo| <= capacity
      && HeaderInPast(data, namedInfo, table)
    }

    /** The header slot describes all of the current table of names. */
    predicate HeaderCurrent()
      reads this
    {
      namedInfo == [] || (data != [] && data[0] == Header(table, |namedInfo|))
    }

    constructor ()
      ensures Valid() && HeaderCurrent() && params == [] && names == []
    {
      data, namedInfo, table, capacity, head := [], [], 0, 0, null;
      nodes, params, names := [], [], [];
    }

    /** `dynamic_arg_list::push`: a new head; no other node moves. */
    method PushNode(v: Value) returns (node: Node)
      requires ListValid()
      modifies this`head, this`nodes
      ensures ListValid() && node.value == v && fresh(node)
      ensures nodes == [node] + old(nodes) && Extends(old(nodes), nodes)
    {
      node := new Node(v);
      node.next := head;
      head := node;
      nodes := [node] + nodes;
    }

    /** The entry that `push_back` stores for an argument. */
    method MakeEntry(p: Param) returns (e: Entry)
      requires ListValid()
      modifies this`head, this`nodes
      ensures ListValid() && StandsFor(e, p) && !e.Header?
      ensures e.Owned? <==> p.ByValue? && !p.v.Number?
      ensures match p
              case ByValue(v) => e == Inline(v) || (e.Owned? && e.node.value == v)
              case ByReference(c) => e == Borrowed(c)
              case ByView(t) => e == Viewed(t)
      ensures e.Owned? ==> e.node in nodes
      ensures Extends(old(nodes), nodes)
    {
      if NeedCopy(p) {
        var node := PushNode(p.v);
        e := Owned(node);
      } else {
        e := match p
             case ByValue(v) => Inline(v)
             case ByReference(c) => Borrowed(c)
             case ByView(t) => Viewed(t);
      }
    }

    /** The two `push_back` overloads without a name. */
    method PushBack(p: Param)
      requires Valid()
      modifies this
      ensures Valid() && HeaderCurrent() == old(HeaderCurrent())
      ensures params == old(params) + [p] && names == old(names)
      ensures Extends(old(nodes), nodes)
      ensures |old(nodes)| <= |nodes| && nodes[|nodes| - |old(nodes)|..] == old(nodes)
    {
      hide Represents, StandsFor, ListValid;
      var e := MakeEntry(p);
      RepresentsMoreNodes(data, namedInfo, old(nodes), nodes, params, names);
      RepresentsOneMore(data, namedInfo, nodes, params, names, e, p);
      data := data + [e];
      params := params + [p];
    }

    /** `emplace_arg` for a named argument; the first name makes room for the header slot. */
    method EmplaceNamed(nameNode: Node, e: Entry, ghost name: string, ghost p: Param)
      requires Valid() && nameNode in nodes && nameNode.value == Str(name)
      requires StandsFor(e, p) && (e.Owned? ==> e.node in nodes)
      modifies this`data, this`namedInfo, this`capacity, this`table, this`params, this`names
      ensures Valid() && HeaderCurrent()
      ensures params == old(params) + [p] && names == old(names) + [(name, |old(params)|)]
    {
      hide Represents, StandsFor, ListValid;
      var size := if |namedInfo| == capacity then 2 * capacity + 1 else capacity;
      var block := if |namedInfo| == capacity then table + 1 else table;
      var h := Header(block, |namedInfo| + 1);
      RepresentsOneNamed(data, namedInfo, nodes, params, names, e, p, nameNode, name, h);
      var slot := if namedInfo == [] then [Header(0, 0)] else [];
      var d := slot + data + [e];
      var info := NamedInfo(nameNode, |d| - 2);
      d := d[0 := h];
      data, namedInfo, capacity, table := d, namedInfo + [info], size, block;
      params, names := params + [p], names + [(name, |params|)];
    }

    /** `push_back` of a named argument. */
    method PushNamed(name: string, p: Param)
      requires Valid()
      modifies this
      ensures Valid() && HeaderCurrent()
      ensures params == old(params) + [p] && names == old(names) + [(name, |old(params)|)]
      ensures Extends(old(nodes), nodes)
      ensures |old(nodes)| <= |nodes| && nodes[|nodes| - |old(nodes)|..] == old(nodes)
    {
      hide Represents, StandsFor, ListValid, HeaderInPast;
      var nameNode := PushNode(Str(name));
      ghost var between := nodes;
      var e := MakeEntry(p);
      ExtendsTwice(old(nodes), between, nodes);
      ExtendsKeeps(between, nodes, nameNode);
      RepresentsMoreNodes(data, namedInfo, old(nodes), nodes, params, names);
      EmplaceNamed(nameNode, e, name, p);
    }

    /** `data()[i]`, read through: the i-th argument pushed, or what the caller's memory holds now. */
    method Read(i: nat) returns (v: Value)
      requires Valid() && i < |params|
      ensures v == Present(params[i])
      ensures match params[i]
              case ByValue(w) => v == w
              case ByReference(c) => v == c.value
              case ByView(t) => v == Str(t[..])
    {
      RepresentsEntry(data, namedInfo, nodes, params, names, i);
      var e := if namedInfo == [] then data[i] else data[1 + i];
      match e
      case Inline(w) => v := w;
      case Owned(node) => v := node.value;
      case Borrowed(c) => v := c.value;
      case Viewed(t) => v := Str(t[..]);
    }

    /** What `get_types` reports: the header slot counts as an argument, so the size is right only without names. */
    method GetTypes() returns (size: nat, hasNamed: bool)
      requires Valid()
      ensures hasNamed == (names != [])
      ensures size == |params| + if names != [] then 1 else 0
    {
      RepresentsSizes(data, namedInfo, nodes, params, names);
      size, hasNamed := |data|, namedInfo != [];
    }

    /**
     * `get` by position: the guard compares with the reported size, but the
     * arguments are read from behind the header slot.
     */
    method Get(id: nat) returns (r: Fetched)
      requires Valid()
      ensures var max := MaxSize(|params| + (if names != [] then 1 else 0), names != []);
              r == if id >= max then NoArg else if id < |params| then Arg(Present(params[id])) else OutOfBounds
    {
      var size, hasNamed := GetTypes();
      if id >= MaxSize(size, hasNamed) {
        return NoArg;
      }
      RepresentsSizes(data, namedInfo, nodes, params, names);
      var slot := if hasNamed then 1 + id else id;
      if slot >= |data| {
        return OutOfBounds;
      }
      var v := Read(id);
      r := Arg(v);
    }

    /** `get_id`: the search runs over the table that the header slot points at, which may be a released one. */
    method GetId(name: string) returns (r: Found)
      requires Valid()
      ensures var k := FirstNamed(names, name);
              r == if !HeaderCurrent() then Dangling else if k.Some? then At(names[k.value].1) else Missing
    {
      RepresentsSizes(data, namedInfo, nodes, params, names);
      hide Represents, ListValid;
      if namedInfo == [] {
        return Missing;
      }
      if data[0].table != table {
        return Dangling;
      }
      var size := data[0].size;
      assert names[0..] == names;
      for i := 0 to size
        invariant FirstNamed(names, name) == Later(FirstNamed(names[i..], name), i)
      {
        SearchStep(names, name, i);
        if namedInfo[i].name.value == Str(name) {
          return At(namedInfo[i].id);
        }
      }
      r := Missing;
    }

    /** `reserve`: the contents stay, but growing the table moves it away from under the header slot. */
    method Reserve(newCap: nat, newCapNamed: nat)
      requires Valid() && newCap >= newCapNamed
      modifies this`capacity, this`table
      ensures Valid() && params == old(params) && names == old(names)
      ensures HeaderCurrent() == (old(HeaderCurrent()) && (names == [] || newCapNamed <= old(capacity)))
    {
      RepresentsSizes(data, namedInfo, nodes, params, names);
      if newCapNamed > capacity {
        capacity, table := newCapNamed, table + 1;
      }
    }

    /** `clear`: every node the store owned is destroyed, from the head on. */
    method Clear()
      requires Valid()
      modifies this, nodes
      ensures Valid() && HeaderCurrent() && params == [] && names == [] && nodes == []
      ensures forall n :: n in old(nodes) ==> !n.alive
    {
      data, namedInfo := [], [];
      params, names := [], [];
      Destroy(head, nodes);
      head, nodes := null, [];
    }
  }

  /** The positions of a search that starts i pairs later. */
  function Later(r: Option<nat>, i: nat): Option<nat> {
    if r.Some? then Some(r.value + i) else None
  }

  lemma SearchStep(names: seq<(string, nat)>, name: string, i: nat)
    requires i < |names|
    ensures Later(FirstNamed(names[i..], name), i)
         == if names[i].0 == name then Some(i) else Later(FirstNamed(names[i + 1..], name), i + 1)
  {
    assert names[i..][0] == names[i] && names[i..][1..] == names[i + 1..];
  }

  lemma RepresentsSizes(data: seq<Entry>, info: seq<NamedInfo>, nodes: seq<Node>,
                        params: seq<Param>, names: seq<(string, nat)>)
    requires Represents(data, info, nodes, params, names)
    ensures |data| == |params| + if info != [] then 1 else 0
    ensures |info| == |names| && (info != [] ==> data[0].Header?)
    ensures forall i :: 0 <= i < |names| ==> info[i].name.value == Str(names[i].0) && info[i].id == names[i].1
  {
  }

  lemma RepresentsEntry(data: seq<Entry>, info: seq<NamedInfo>, nodes: seq<Node>,
                        params: seq<Param>, names: seq<(string, nat)>, i: nat)
    requires Represents(data, info, nodes, params, names) && i < |params|
    ensures var k := if info == [] then i else 1 + i;
            k < |data| && StandsFor(data[k], params[i]) && (data[k].Owned? ==> data[k].node in nodes)
  {
  }
}
