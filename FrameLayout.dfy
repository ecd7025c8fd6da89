/** How a frame places its fields in the buffer: FieldStructure.Configure and the
    IField.Configure of each kind of field. Each member is placed where the previous one
    ends; an array's count is read, when Configure runs, from an earlier field. */
module FrameLayout {
  import opened Wrappers
  import opened Integers
  import opened BinaryConverters
  import opened FieldAccess

  /** An array's countFunc: a constant, or the value of an earlier integer field of the
      same structure, cast to int. */
  datatype Count = Constant(n: Int32) | FieldValue(member: nat)

  /** A Field<T>; for a BitmappedField subclass, bitWidths lists the widths of its
      BitFields in declaration order (and is empty otherwise). */
  datatype FieldDecl = FieldDecl(conv: Converter, bitWidths: seq<Int32>)

  /** The IField members of a FieldStructure, base class first, in declaration order. */
  datatype Member =
    | Scalar(field: FieldDecl)
    | Array(conv: Converter, count: Count)
    | Structures(members: seq<Member>, count: Count)
    | Bitmappeds(element: FieldDecl, count: Count)

  /** The state Configure leaves in a member. A member Configure has not reached is
      Unconfigured (its frame reference and arrays are still null). A structure or
      bitmapped array records the generation of its backing T[]: a new T[] (and new
      elements) gets a new generation. */
  datatype Node =
    | Unconfigured
    | FieldNode(field: FieldDecl, offset: Int32)
    | ArrayNode(conv: Converter, offset: Int32, count: Int32)
    | StructuresNode(offset: Int32, generation: nat, elements: seq<Structure>, end: Int32)
    | BitmappedsNode(element: FieldDecl, offset: Int32, generation: nat, units: seq<Int32>, end: Int32)

  /** A configured FieldStructure: where it starts, its members' states and its Size. */
  datatype Structure = Structure(start: Int32, nodes: seq<Node>, size: Int32)

  /** What Configure reads counts from: the frame's buffer as its Buffer getter returns it
      (a null buffer is allocated with the previous Size, which fails for a negative
      Size), and the byte order. */
  datatype Env = Env(view: Result<seq<Byte>>, order: Order)

  datatype Laid = Laid(nodes: seq<Node>, size: Int32, readBuffer: bool)
  datatype Placed = Placed(node: Node, extent: Int32, readBuffer: bool)
  datatype ElementsLaid = ElementsLaid(elements: seq<Structure>, end: Int32, readBuffer: bool)

  // ---------------------------------------------------------------------------
  // Declarations and states

  /** A bitmapped field's unit is a byte, a UInt16 or a UInt32. */
  predicate FieldOk(f: FieldDecl)
  {
    f.bitWidths != [] ==> f.conv in {ByteConverter, UInt16Converter, UInt32Converter}
  }

  /** A count read from a field names an earlier integer field of the same structure. */
  predicate CountOk(c: Count, members: seq<Member>, i: nat)
  {
    c.FieldValue? ==>
      c.member < i && c.member < |members| && members[c.member].Scalar? &&
      Integral(members[c.member].field.conv)
  }

  predicate WellFormed(members: seq<Member>)
  {
    forall i | 0 <= i < |members| ::
      (members[i].Scalar? ==> FieldOk(members[i].field)) &&
      (members[i].Bitmappeds? ==> FieldOk(members[i].element)) &&
      (!members[i].Scalar? ==> CountOk(members[i].count, members, i)) &&
      (members[i].Structures? ==> WellFormed(members[i].members))
  }

  /** The states match the declarations, element by element. */
  predicate Shaped(members: seq<Member>, nodes: seq<Node>)
  {
    |nodes| == |members| && forall i | 0 <= i < |members| :: NodeShaped(members[i], nodes[i])
  }

  predicate NodeShaped(m: Member, n: Node)
  {
    n.Unconfigured? ||
    match m
    case Scalar(f) => n.FieldNode? && n.field == f
    case Array(conv, _) => n.ArrayNode? && n.conv == conv
    case Structures(ms, _) => n.StructuresNode? && forall e | e in n.elements :: Shaped(ms, e.nodes)
    case Bitmappeds(f, _) => n.BitmappedsNode? && n.element == f
  }

  /** The states of a newly constructed structure's members. */
  function Fresh(n: nat): (r: seq<Node>)
    ensures |r| == n && forall i | 0 <= i < n :: r[i].Unconfigured?
  {
    seq(n, _ => Unconfigured)
  }

  function NodeOffset(n: Node): Int32
    requires !n.Unconfigured?
  {
    match n
    case FieldNode(_, offset) => offset
    case ArrayNode(_, offset, _) => offset
    case StructuresNode(offset, _, _, _) => offset
    case BitmappedsNode(_, offset, _, _, _) => offset
  }

  /** IField.OffsetAtEnd of a configured member. */
  function OffsetAtEnd(n: Node): Int32
    requires !n.Unconfigured?
  {
    match n
    case FieldNode(f, offset) => Wrap32(offset + Size(f.conv))
    case ArrayNode(conv, offset, count) => Wrap32(offset + Wrap32(Size(conv) * count))
    case StructuresNode(_, _, _, end) => end
    case BitmappedsNode(_, _, _, _, end) => end
  }

  /** The generation of an array's T[] after Configure: kept when the old array has the
      new count, otherwise a new one. */
  function Generation(prior: Node, reused: bool): nat
  {
    if reused && (prior.StructuresNode? || prior.BitmappedsNode?) then prior.generation
    else if prior.StructuresNode? || prior.BitmappedsNode? then prior.generation + 1
    else 0
  }

  // ---------------------------------------------------------------------------
  // Configure, as functions

  /** Calls countFunc. Reading a field goes through its Value getter. */
  function EvalCount(c: Count, siblings: seq<Node>, env: Env): (r: Result<(Int32, bool)>)
    requires c.FieldValue? ==>
      c.member < |siblings| && siblings[c.member].FieldNode? && Integral(siblings[c.member].field.conv)
    ensures r.Ok? && c.Constant? ==> r.value == (c.n, false)
  {
    match c
    case Constant(n) => Ok((n, false))
    case FieldValue(k) =>
      var buf :- env.view;
      var v :- ReadSlot(Slot(siblings[k].field.conv, siblings[k].offset, true), buf, env.order);
      Ok((Wrap32(v.n), true))
  }

  /** The offsets the bitmapped array's loop gives its elements. */
  function ElementOffsets(offset: Int32, size: nat, n: nat): (r: seq<Int32>)
    ensures |r| == n
    decreases n
  {
    if n == 0 then [] else [offset] + ElementOffsets(Wrap32(offset + size), size, n - 1)
  }

  /** Where that loop ends. */
  function ElementsEnd(offset: Int32, size: nat, n: nat): Int32
    decreases n
  {
    if n == 0 then offset else ElementsEnd(Wrap32(offset + size), size, n - 1)
  }

  /** FieldStructure.Configure(frame, start) over the members before the first null one
      (present of them); the others keep their states. */
  function LayOut(ms: seq<Member>, present: nat, prior: seq<Node>, start: Int32, env: Env): (r: Result<Laid>)
    requires WellFormed(ms) && Shaped(ms, prior) && present <= |ms|
    ensures r.Ok? ==> Shaped(ms, r.value.nodes)
    decreases ms, 3, 0
  {
    LayOutFrom(ms, present, prior, start, 0, start, [], false, env)
  }

  predicate Configured(ms: seq<Member>, done: seq<Node>)
    requires |done| <= |ms|
  {
    forall k | 0 <= k < |done| :: NodeShaped(ms[k], done[k]) && !done[k].Unconfigured?
  }

  function LayOutFrom(ms: seq<Member>, present: nat, prior: seq<Node>, start: Int32,
                      i: nat, offset: Int32, done: seq<Node>, read: bool, env: Env): (r: Result<Laid>)
    requires WellFormed(ms) && Shaped(ms, prior) && present <= |ms|
    requires i <= present && |done| == i && Configured(ms, done)
    ensures r.Ok? ==> Shaped(ms, r.value.nodes)
    decreases ms, 2, present - i
  {
    if i == present then Ok(Laid(done + prior[present..], Wrap32(offset - start), read))
    else
      var m := ms[i];
      assert !m.Scalar? ==> CountOk(m.count, ms, i);
      var placed :- LayOutMember(m, prior[i], offset, done, env);
      LayOutFrom(ms, present, prior, start, i + 1, Wrap32(offset + placed.extent),
                 done + [placed.node], read || placed.readBuffer, env)
  }

  predicate MemberReady(m: Member, prior: Node, siblings: seq<Node>)
  {
    NodeShaped(m, prior) &&
    (m.Structures? ==> WellFormed(m.members)) &&
    (!m.Scalar? && m.count.FieldValue? ==>
      m.count.member < |siblings| && siblings[m.count.member].FieldNode? &&
      Integral(siblings[m.count.member].field.conv))
  }

  /** IField.Configure(frame, offset) of one member: its new state, the size it returns,
      and whether its countFunc read the buffer. */
  function LayOutMember(m: Member, prior: Node, offset: Int32, siblings: seq<Node>, env: Env): (r: Result<Placed>)
    requires MemberReady(m, prior, siblings)
    ensures r.Ok? ==> NodeShaped(m, r.value.node) && !r.value.node.Unconfigured?
    ensures r.Ok? ==> NodeOffset(r.value.node) == offset
    ensures r.Ok? ==> Wrap32(offset + r.value.extent) == OffsetAtEnd(r.value.node)
    decreases m, 1, 0
  {
    match m
    case Scalar(f) => Ok(Placed(FieldNode(f, offset), Size(f.conv), false))
    case Array(conv, c) =>
      var counted :- EvalCount(c, siblings, env);
      var n := counted.0;
      Ok(Placed(ArrayNode(conv, offset, n), Wrap32(Size(conv) * n), counted.1))
    case Structures(ms, c) => LayOutStructures(ms, c, prior, offset, siblings, env)
    case Bitmappeds(f, c) => LayOutBitmappeds(f, c, prior, offset, siblings, env)
  }

  /** FieldStructureArray.Configure. */
  function LayOutStructures(ms: seq<Member>, c: Count, prior: Node, offset: Int32, siblings: seq<Node>, env: Env): (r: Result<Placed>)
    requires MemberReady(Structures(ms, c), prior, siblings)
    ensures r.Ok? ==> NodeShaped(Structures(ms, c), r.value.node) && r.value.node.StructuresNode?
    ensures r.Ok? ==> NodeOffset(r.value.node) == offset
    ensures r.Ok? ==> Wrap32(offset + r.value.extent) == OffsetAtEnd(r.value.node)
    decreases ms, 6, 0
  {
    var counted :- EvalCount(c, siblings, env);
    if counted.0 < 0 then Err(Overflow)
    else PlaceStructures(ms, prior, offset, counted.0, counted.1, env)
  }

  /** The n elements of a structure array laid out one after another from offset, and
      the array's node: its T[] kept when the old one has n elements. */
  function PlaceStructures(ms: seq<Member>, prior: Node, offset: Int32, n: nat, read: bool, env: Env): (r: Result<Placed>)
    requires WellFormed(ms) && (prior.StructuresNode? ==> forall e | e in prior.elements :: Shaped(ms, e.nodes))
    ensures r.Ok? ==> r.value.node.StructuresNode? && forall e | e in r.value.node.elements :: Shaped(ms, e.nodes)
    ensures r.Ok? ==> NodeOffset(r.value.node) == offset
    ensures r.Ok? ==> Wrap32(offset + r.value.extent) == OffsetAtEnd(r.value.node)
    decreases ms, 5, 0
  {
    var reused := prior.StructuresNode? && |prior.elements| == n;
    var laid :- LayOutElements(ms, ElementPriors(ms, prior, n), 0, offset, [], read, env);
    Wrap32Inner(offset, laid.end - offset);
    Ok(Placed(StructuresNode(offset, Generation(prior, reused), laid.elements, laid.end),
              Wrap32(laid.end - offset), laid.readBuffer))
  }

  /** BitmappedFieldArray.Configure. */
  function LayOutBitmappeds(f: FieldDecl, c: Count, prior: Node, offset: Int32, siblings: seq<Node>, env: Env): (r: Result<Placed>)
    requires MemberReady(Bitmappeds(f, c), prior, siblings)
    ensures r.Ok? ==> r.value.node.BitmappedsNode? && r.value.node.element == f
    ensures r.Ok? ==> NodeOffset(r.value.node) == offset
    ensures r.Ok? ==> Wrap32(offset + r.value.extent) == OffsetAtEnd(r.value.node)
  {
    var counted :- EvalCount(c, siblings, env);
    var n := counted.0;
    if n < 0 then Err(Overflow)
    else
      var reused := prior.BitmappedsNode? && |prior.units| == n;
      var end := ElementsEnd(offset, Size(f.conv), n);
      Wrap32Inner(offset, end - offset);
      Ok(Placed(BitmappedsNode(f, offset, Generation(prior, reused), ElementOffsets(offset, Size(f.conv), n), end),
                Wrap32(end - offset), counted.1))
  }

  /** The structure array's loop: each element is configured where the previous ends. */
  function LayOutElements(ms: seq<Member>, priors: seq<seq<Node>>, j: nat, offset: Int32,
                          done: seq<Structure>, read: bool, env: Env): (r: Result<ElementsLaid>)
    requires WellFormed(ms) && (forall p | p in priors :: Shaped(ms, p))
    requires j <= |priors| && |done| == j && forall e | e in done :: Shaped(ms, e.nodes)
    ensures r.Ok? ==> |r.value.elements| == |priors| && forall e | e in r.value.elements :: Shaped(ms, e.nodes)
    decreases ms, 4, |priors| - j
  {
    if j == |priors| then Ok(ElementsLaid(done, offset, read))
    else
      assert priors[j] in priors;
      var laid :- LayOut(ms, |ms|, priors[j], offset, env);
      LayOutElements(ms, priors, j + 1, Wrap32(offset + laid.size),
                     done + [Structure(offset, laid.nodes, laid.size)], read || laid.readBuffer, env)
  }

  // ---------------------------------------------------------------------------
  // What the layout promises

  /** The first present members are configured, the first at start and each of the
      others at the previous one's OffsetAtEnd. */
  predicate Contiguous(nodes: seq<Node>, present: nat, start: Int32)
  {
    present <= |nodes| &&
    (forall i | 0 <= i < present :: !nodes[i].Unconfigured?) &&
    (forall i {:trigger EndBefore(nodes, i, start)} | 0 <= i < present :: NodeOffset(nodes[i]) == EndBefore(nodes, i, start))
  }

  /** Where member i starts when the members are contiguous. */
  function EndBefore(nodes: seq<Node>, i: nat, start: Int32): Int32
    requires i <= |nodes| && (i > 0 ==> !nodes[i - 1].Unconfigured?)
  {
    if i == 0 then start else OffsetAtEnd(nodes[i - 1])
  }

  lemma {:induction false} LayOutFromContiguous(ms: seq<Member>, present: nat, prior: seq<Node>, start: Int32,
                                                i: nat, offset: Int32, done: seq<Node>, read: bool, env: Env)
    returns (laid: Laid)
    requires WellFormed(ms) && Shaped(ms, prior) && present <= |ms|
    requires i <= present && |done| == i && Configured(ms, done)
    requires Contiguous(done, i, start) && offset == EndBefore(done, i, start)
    requires LayOutFrom(ms, present, prior, start, i, offset, done, read, env).Ok?
    ensures LayOutFrom(ms, present, prior, start, i, offset, done, read, env) == Ok(laid)
    ensures LaidContiguously(laid, |ms|, present, prior, start, done)
    decreases present - i
  {
    if i < present {
      var placed := ContiguousTurn(ms, present, prior, start, i, offset, done, read, env);
      laid := LayOutFromContiguous(ms, present, prior, start, i + 1, Wrap32(offset + placed.extent),
                                   done + [placed.node], read || placed.readBuffer, env);
      LaidContiguouslyShrink(laid, |ms|, present, prior, start, done, placed.node);
    } else {
      laid := Laid(done + prior[present..], Wrap32(offset - start), read);
      LaidContiguouslyAtEnd(laid, |ms|, present, prior, start, done, offset, read);
    }
  }

  /** One turn of Configure's loop keeps the members placed so far contiguous. */
  lemma ContiguousTurn(ms: seq<Member>, present: nat, prior: seq<Node>, start: Int32,
                       i: nat, offset: Int32, done: seq<Node>, read: bool, env: Env) returns (placed: Placed)
    requires WellFormed(ms) && Shaped(ms, prior) && present <= |ms|
    requires i < present && |done| == i && Configured(ms, done)
    requires Contiguous(done, i, start) && offset == EndBefore(done, i, start)
    requires LayOutFrom(ms, present, prior, start, i, offset, done, read, env).Ok?
    ensures Configured(ms, done + [placed.node])
    ensures Contiguous(done + [placed.node], i + 1, start)
    ensures Wrap32(offset + placed.extent) == EndBefore(done + [placed.node], i + 1, start)
    ensures LayOutFrom(ms, present, prior, start, i, offset, done, read, env) ==
            LayOutFrom(ms, present, prior, start, i + 1, Wrap32(offset + placed.extent), done + [placed.node],
                       read || placed.readBuffer, env)
  {
    placed := LayOutFromStep(ms, present, prior, start, i, offset, done, read, env);
    ContiguousStep(done, placed.node, start);
  }

  /** What LayOutFromContiguous says of the layout that continues from done: |members|
      nodes, done first, the members from present on as in prior, the first present ones
      contiguous from start, and the size reaching to the end of the last of them. */
  predicate LaidContiguously(laid: Laid, members: nat, present: nat, prior: seq<Node>, start: Int32, done: seq<Node>)
  {
    |laid.nodes| == members && |done| <= present <= members && |prior| == members &&
    laid.nodes[..|done|] == done && laid.nodes[present..] == prior[present..] &&
    Contiguous(laid.nodes, present, start) &&
    laid.size == Wrap32(EndBefore(laid.nodes, present, start) - start)
  }

  lemma LaidContiguouslyShrink(laid: Laid, members: nat, present: nat, prior: seq<Node>, start: Int32,
                               done: seq<Node>, node: Node)
    requires LaidContiguously(laid, members, present, prior, start, done + [node])
    ensures LaidContiguously(laid, members, present, prior, start, done)
  {
    assert laid.nodes[..|done|] == laid.nodes[..|done| + 1][..|done|];
  }

  lemma LaidContiguouslyAtEnd(laid: Laid, members: nat, present: nat, prior: seq<Node>, start: Int32,
                              done: seq<Node>, offset: Int32, read: bool)
    requires |done| == present <= members && |prior| == members
    requires Contiguous(done, present, start) && offset == EndBefore(done, present, start)
    requires laid == Laid(done + prior[present..], Wrap32(offset - start), read)
    ensures LaidContiguously(laid, members, present, prior, start, done)
  {
    ContiguousPrefix(done, prior[present..], start);
  }

  /** One turn of Configure's loop. */
  lemma LayOutFromStep(ms: seq<Member>, present: nat, prior: seq<Node>, start: Int32,
                       i: nat, offset: Int32, done: seq<Node>, read: bool, env: Env) returns (placed: Placed)
    requires WellFormed(ms) && Shaped(ms, prior) && present <= |ms|
    requires i < present && |done| == i && Configured(ms, done)
    requires LayOutFrom(ms, present, prior, start, i, offset, done, read, env).Ok?
    ensures MemberReady(ms[i], prior[i], done)
    ensures LayOutMember(ms[i], prior[i], offset, done, env) == Ok(placed)
    ensures Configured(ms, done + [placed.node])
    ensures LayOutFrom(ms, present, prior, start, i, offset, done, read, env) ==
            LayOutFrom(ms, present, prior, start, i + 1, Wrap32(offset + placed.extent), done + [placed.node],
                       read || placed.readBuffer, env)
  {
    MemberReadyAt(ms, prior, i, done);
    var r := LayOutMember(ms[i], prior[i], offset, done, env);
    LayOutFromMember(ms, present, prior, start, i, offset, done, read, env, r);
    placed := r.value;
  }

  lemma ConfiguredStep(ms: seq<Member>, done: seq<Node>, node: Node)
    requires |done| < |ms| && Configured(ms, done)
    requires NodeShaped(ms[|done|], node) && !node.Unconfigured?
    ensures Configured(ms, done + [node])
  {
    var done' := done + [node];
    assert forall k | 0 <= k < |done| :: done'[k] == done[k];
  }

  lemma ContiguousStep(done: seq<Node>, node: Node, start: Int32)
    requires Contiguous(done, |done|, start) && !node.Unconfigured?
    requires NodeOffset(node) == EndBefore(done, |done|, start)
    ensures Contiguous(done + [node], |done| + 1, start)
    ensures EndBefore(done + [node], |done| + 1, start) == OffsetAtEnd(node)
  {
    var done' := done + [node];
    forall k | 0 <= k < |done'| ensures NodeOffset(done'[k]) == EndBefore(done', k, start) {
      if k > 0 {
        assert done'[k - 1] == done[k - 1];
      }
      if k < |done| {
        assert done'[k] == done[k];
        assert NodeOffset(done[k]) == EndBefore(done, k, start);
      }
    }
  }

  lemma ContiguousPrefix(done: seq<Node>, rest: seq<Node>, start: Int32)
    requires Contiguous(done, |done|, start)
    ensures Contiguous(done + rest, |done|, start) && (done + rest)[..|done|] == done
    ensures EndBefore(done + rest, |done|, start) == EndBefore(done, |done|, start)
  {
    var nodes := done + rest;
    assert forall k | 0 <= k < |done| :: nodes[k] == done[k];
    forall k | 0 <= k < |done| ensures NodeOffset(nodes[k]) == EndBefore(nodes, k, start) {
      assert NodeOffset(done[k]) == EndBefore(done, k, start);
    }
  }

  /** Configure places the members before the first null one one after another from
      start, leaves the others as they were, and returns the distance from start to the
      end of the last one as the structure's Size. */
  lemma LayOutContiguous(ms: seq<Member>, present: nat, prior: seq<Node>, start: Int32, env: Env)
    requires WellFormed(ms) && Shaped(ms, prior) && present <= |ms|
    requires LayOut(ms, present, prior, start, env).Ok?
    ensures var laid := LayOut(ms, present, prior, start, env).value;
      |laid.nodes| == |ms| && laid.nodes[present..] == prior[present..] &&
      Contiguous(laid.nodes, present, start) &&
      laid.size == Wrap32(EndBefore(laid.nodes, present, start) - start)
  {
    assert Configured(ms, []) && Contiguous([], 0, start);
    var laid := LayOutFromContiguous(ms, present, prior, start, 0, start, [], false, env);
    assert LayOut(ms, present, prior, start, env) == Ok(laid);
  }

  /** The elements of a structure array follow one another from offset, and the array
      ends where the last one does. */
  predicate ElementsContiguous(elements: seq<Structure>, offset: Int32, end: Int32)
  {
    (forall j {:trigger ElementStart(elements, j, offset)} | 0 <= j < |elements| :: elements[j].start == ElementStart(elements, j, offset)) &&
    end == ElementStart(elements, |elements|, offset)
  }

  function ElementStart(elements: seq<Structure>, j: nat, offset: Int32): Int32
    requires j <= |elements|
  {
    if j == 0 then offset else Wrap32(elements[j - 1].start + elements[j - 1].size)
  }

  /** Element j is its members configured from its own start. */
  predicate ElementsLaidOut(ms: seq<Member>, priors: seq<seq<Node>>, elements: seq<Structure>, env: Env)
    requires WellFormed(ms) && (forall p | p in priors :: Shaped(ms, p)) && |elements| <= |priors|
  {
    forall j | 0 <= j < |elements| ::
      var laid := LayOut(ms, |ms|, priors[j], elements[j].start, env);
      laid.Ok? && laid.value.nodes == elements[j].nodes && laid.value.size == elements[j].size
  }

  lemma {:induction false} LayOutElementsSpec(ms: seq<Member>, priors: seq<seq<Node>>, j: nat, offset: Int32,
                                              at: Int32, done: seq<Structure>, read: bool, env: Env)
    returns (r: ElementsLaid)
    requires WellFormed(ms) && (forall p | p in priors :: Shaped(ms, p))
    requires j <= |priors| && |done| == j && forall e | e in done :: Shaped(ms, e.nodes)
    requires ElementsLaidOut(ms, priors, done, env)
    requires ElementsContiguous(done, offset, at)
    requires LayOutElements(ms, priors, j, at, done, read, env).Ok?
    ensures LayOutElements(ms, priors, j, at, done, read, env) == Ok(r)
    ensures r.elements[..j] == done && ElementsContiguous(r.elements, offset, r.end)
    ensures ElementsLaidOut(ms, priors, r.elements, env)
    decreases |priors| - j
  {
    if j < |priors| {
      var laid := LayOutElementsStep(ms, priors, j, at, done, read, env);
      ElementsStep(ms, priors, done, laid, offset, at, env);
      r := LayOutElementsSpec(ms, priors, j + 1, offset, Wrap32(at + laid.size),
                              done + [Structure(at, laid.nodes, laid.size)], read || laid.readBuffer, env);
      assert r.elements[..j] == r.elements[..j + 1][..j];
    } else {
      r := ElementsLaid(done, at, read);
      assert done[..j] == done;
    }
  }

  /** One turn of the structure array's loop. */
  lemma LayOutElementsStep(ms: seq<Member>, priors: seq<seq<Node>>, j: nat, at: Int32,
                           done: seq<Structure>, read: bool, env: Env) returns (laid: Laid)
    requires WellFormed(ms) && (forall p | p in priors :: Shaped(ms, p))
    requires j < |priors| && |done| == j && forall e | e in done :: Shaped(ms, e.nodes)
    requires LayOutElements(ms, priors, j, at, done, read, env).Ok?
    ensures Shaped(ms, priors[j]) && LayOut(ms, |ms|, priors[j], at, env) == Ok(laid)
    ensures Shaped(ms, laid.nodes)
    ensures LayOutElements(ms, priors, j, at, done, read, env) ==
            LayOutElements(ms, priors, j + 1, Wrap32(at + laid.size), done + [Structure(at, laid.nodes, laid.size)],
                           read || laid.readBuffer, env)
  {
    assert priors[j] in priors;
    laid := LayOut(ms, |ms|, priors[j], at, env).value;
  }

  lemma ElementsStep(ms: seq<Member>, priors: seq<seq<Node>>, done: seq<Structure>, laid: Laid,
                     offset: Int32, at: Int32, env: Env)
    requires WellFormed(ms) && (forall p | p in priors :: Shaped(ms, p)) && |done| < |priors|
    requires ElementsLaidOut(ms, priors, done, env) && ElementsContiguous(done, offset, at)
    requires LayOut(ms, |ms|, priors[|done|], at, env) == Ok(laid)
    ensures var done' := done + [Structure(at, laid.nodes, laid.size)];
      ElementsLaidOut(ms, priors, done', env) && ElementsContiguous(done', offset, Wrap32(at + laid.size))
  {
    var e := Structure(at, laid.nodes, laid.size);
    var done' := done + [e];
    assert forall k | 0 <= k < |done| :: done'[k] == done[k];
    ElementsContiguousStep(done, e, offset);
  }

  lemma ElementsContiguousStep(done: seq<Structure>, e: Structure, offset: Int32)
    requires ElementsContiguous(done, offset, e.start)
    ensures ElementsContiguous(done + [e], offset, Wrap32(e.start + e.size))
  {
    var done' := done + [e];
    forall k | 0 <= k < |done'| ensures done'[k].start == ElementStart(done', k, offset) {
      if k > 0 {
        assert done'[k - 1] == done[k - 1];
      }
      if k < |done| {
        assert done'[k] == done[k];
        assert done[k].start == ElementStart(done, k, offset);
      }
    }
  }

  /** The element priors: the old elements when their count is unchanged, new ones
      otherwise. */
  function ElementPriors(ms: seq<Member>, prior: Node, n: nat): (r: seq<seq<Node>>)
    requires prior.StructuresNode? ==> forall e | e in prior.elements :: Shaped(ms, e.nodes)
    ensures |r| == n && forall p | p in r :: Shaped(ms, p)
  {
    var reused := prior.StructuresNode? && |prior.elements| == n;
    var priors := seq(n, j requires 0 <= j < n => if reused then prior.elements[j].nodes else Fresh(|ms|));
    assert forall j | 0 <= j < n :: Shaped(ms, priors[j]) by {
      forall j | 0 <= j < n ensures Shaped(ms, priors[j]) {
        if reused {
          assert priors[j] == prior.elements[j].nodes;
          assert prior.elements[j] in prior.elements;
        } else {
          assert priors[j] == Fresh(|ms|);
        }
      }
    }
    priors
  }

  /** FieldStructureArray.Configure: the count decides the number of elements; a new
      array (a new generation) is made exactly when the count differs from the old
      array's length, and otherwise the old elements are configured again; the elements
      follow one another from the array's offset. */
  lemma StructureArrayLayout(m: Member, prior: Node, offset: Int32, siblings: seq<Node>, env: Env)
    requires m.Structures? && MemberReady(m, prior, siblings)
    requires LayOutMember(m, prior, offset, siblings, env).Ok?
    ensures EvalCount(m.count, siblings, env).Ok?
    ensures var n := EvalCount(m.count, siblings, env).value.0;
      var node := LayOutMember(m, prior, offset, siblings, env).value.node;
      0 <= n && node.StructuresNode? && |node.elements| == n &&
      ElementsContiguous(node.elements, offset, node.end) &&
      ElementsLaidOut(m.members, ElementPriors(m.members, prior, n), node.elements, env) &&
      (prior.StructuresNode? ==> (node.generation == prior.generation <==> |prior.elements| == n))
  {
    var n := EvalCount(m.count, siblings, env).value.0;
    var read := EvalCount(m.count, siblings, env).value.1;
    var priors := ElementPriors(m.members, prior, n);
    assert LayOutMember(m, prior, offset, siblings, env) == LayOutStructures(m.members, m.count, prior, offset, siblings, env);
    assert 0 <= n;
    LayOutStructuresUnfold(m.members, m.count, prior, offset, siblings, env, n, read);
    var _ := LayOutElementsSpec(m.members, priors, 0, offset, offset, [], read, env);
  }

  lemma {:induction false} ElementOffsetAt(offset: Int32, size: nat, n: nat, j: nat)
    requires j < n
    ensures ElementOffsets(offset, size, n)[j] == Wrap32(offset + j * size)
    decreases j
  {
    if j > 0 {
      ElementOffsetAt(Wrap32(offset + size), size, n - 1, j - 1);
      Wrap32Inner((j - 1) * size, offset + size);
      MulStep(j, size);
    }
  }

  lemma {:induction false} ElementsEndAt(offset: Int32, size: nat, n: nat)
    ensures ElementsEnd(offset, size, n) == Wrap32(offset + n * size)
    decreases n
  {
    if n > 0 {
      ElementsEndAt(Wrap32(offset + size), size, n - 1);
      Wrap32Inner((n - 1) * size, offset + size);
      MulStep(n, size);
    }
  }

  lemma MulStep(j: nat, size: nat)
    requires j > 0
    ensures j * size == (j - 1) * size + size
  {
  }

  /** BitmappedFieldArray.Configure: element j of a count-n array sits j unit sizes past
      the array's offset and the array ends n unit sizes past it; the array is replaced
      (a new generation) exactly when the count changes; a negative count fails. */
  lemma BitmappedArrayLayout(m: Member, prior: Node, offset: Int32, siblings: seq<Node>, env: Env)
    requires m.Bitmappeds? && MemberReady(m, prior, siblings)
    requires EvalCount(m.count, siblings, env).Ok?
    ensures var n := EvalCount(m.count, siblings, env).value.0;
      var r := LayOutMember(m, prior, offset, siblings, env);
      (r.Err? <==> n < 0) && (r.Err? ==> r.error == Overflow) &&
      (r.Ok? ==>
        var node := r.value.node;
        node.BitmappedsNode? && |node.units| == n &&
        (forall j | 0 <= j < n :: node.units[j] == Wrap32(offset + j * Size(m.element.conv))) &&
        node.end == Wrap32(offset + n * Size(m.element.conv)) &&
        (prior.BitmappedsNode? ==> (node.generation == prior.generation <==> |prior.units| == n)))
  {
    var n := EvalCount(m.count, siblings, env).value.0;
    if n >= 0 {
      forall j | 0 <= j < n ensures ElementOffsets(offset, Size(m.element.conv), n)[j] == Wrap32(offset + j * Size(m.element.conv)) {
        ElementOffsetAt(offset, Size(m.element.conv), n, j);
      }
      ElementsEndAt(offset, Size(m.element.conv), n);
    }
  }

  /** A structure array with a negative count fails with an OverflowException, as
      new T[count] does. */
  lemma NegativeStructureCount(m: Member, prior: Node, offset: Int32, siblings: seq<Node>, env: Env)
    requires m.Structures? && MemberReady(m, prior, siblings)
    requires EvalCount(m.count, siblings, env).Ok? && EvalCount(m.count, siblings, env).value.0 < 0
    ensures LayOutMember(m, prior, offset, siblings, env) == Err(Overflow)
  {
  }

  /** A FieldArray does not check its count: a negative one gives the array a negative
      size, so the member after it starts before the array does. */
  lemma NegativeArrayCount(m: Member, prior: Node, offset: Int32, siblings: seq<Node>, env: Env)
    requires m.Array? && MemberReady(m, prior, siblings)
    requires EvalCount(m.count, siblings, env).Ok?
    requires var n := EvalCount(m.count, siblings, env).value.0;
      n < 0 && -0x8000_0000 <= Size(m.conv) * n && -0x8000_0000 <= offset + Size(m.conv) * n
    ensures var placed := LayOutMember(m, prior, offset, siblings, env).value;
      OffsetAtEnd(placed.node) <= offset && (Size(m.conv) > 0 ==> OffsetAtEnd(placed.node) < offset)
  {
    var n := EvalCount(m.count, siblings, env).value.0;
    var extent := Size(m.conv) * n;
    assert extent <= 0 && (Size(m.conv) > 0 ==> extent < 0) by {
      MulMonotoneInt(Size(m.conv), n, -1);
    }
    var placed := LayOutMember(m, prior, offset, siblings, env).value;
    assert placed.node == ArrayNode(m.conv, offset, n);
    assert OffsetAtEnd(placed.node) == Wrap32(offset + Wrap32(extent));
  }

  /** A count read from a field that lies past the end of the buffer is 0: the field's
      getter returns its default. */
  lemma CountPastEnd(c: Count, siblings: seq<Node>, env: Env)
    requires c.FieldValue? && c.member < |siblings| && siblings[c.member].FieldNode?
    requires Integral(siblings[c.member].field.conv) && env.view.Ok?
    requires var f := siblings[c.member];
      0 <= f.offset && f.offset + Size(f.field.conv) < 0x8000_0000 &&
      |env.view.value| < f.offset + Size(f.field.conv)
    ensures EvalCount(c, siblings, env) == Ok((0, true))
  {
    var f := siblings[c.member];
    ReadPastEnd(Slot(f.field.conv, f.offset, true), env.view.value, env.order);
  }

  // ---------------------------------------------------------------------------
  // Configure, as the loops the source runs

  /** A member whose Configure fails ends the loop with its error. */
  lemma LayOutFromFails(ms: seq<Member>, present: nat, prior: seq<Node>, start: Int32,
                        i: nat, offset: Int32, done: seq<Node>, read: bool, env: Env, placed: Result<Placed>)
    requires WellFormed(ms) && Shaped(ms, prior) && present <= |ms|
    requires i < present && |done| == i && Configured(ms, done)
    requires MemberReady(ms[i], prior[i], done) && placed == LayOutMember(ms[i], prior[i], offset, done, env)
    requires placed.Err?
    ensures LayOutFrom(ms, present, prior, start, i, offset, done, read, env) == Err(placed.error)
  {
    assert !ms[i].Scalar? ==> CountOk(ms[i].count, ms, i);
  }

  /** A member configured in place lets the loop go on after its end. */
  lemma LayOutFromContinues(ms: seq<Member>, present: nat, prior: seq<Node>, start: Int32,
                            i: nat, offset: Int32, done: seq<Node>, read: bool, env: Env, placed: Placed)
    requires WellFormed(ms) && Shaped(ms, prior) && present <= |ms|
    requires i < present && |done| == i && Configured(ms, done)
    requires MemberReady(ms[i], prior[i], done) && LayOutMember(ms[i], prior[i], offset, done, env) == Ok(placed)
    requires Configured(ms, done + [placed.node])
    ensures LayOutFrom(ms, present, prior, start, i, offset, done, read, env) ==
      LayOutFrom(ms, present, prior, start, i + 1, Wrap32(offset + placed.extent),
                 done + [placed.node], read || placed.readBuffer, env)
  {
    assert !ms[i].Scalar? ==> CountOk(ms[i].count, ms, i);
  }

  /** The member that Configure's loop reaches next has what its own Configure needs: its
      count, if read from a field, comes from an integral field configured before it. */
  lemma MemberReadyAt(ms: seq<Member>, prior: seq<Node>, i: nat, done: seq<Node>)
    requires WellFormed(ms) && Shaped(ms, prior)
    requires i < |ms| && |done| == i && Configured(ms, done)
    ensures MemberReady(ms[i], prior[i], done)
  {
    assert !ms[i].Scalar? ==> CountOk(ms[i].count, ms, i);
  }

  lemma LayOutStructuresUnfold(ms: seq<Member>, c: Count, prior: Node, offset: Int32, siblings: seq<Node>, env: Env,
                               n: Int32, read: bool)
    requires MemberReady(Structures(ms, c), prior, siblings)
    requires EvalCount(c, siblings, env) == Ok((n, read)) && 0 <= n
    ensures LayOutStructures(ms, c, prior, offset, siblings, env) == PlaceStructures(ms, prior, offset, n, read, env)
    ensures var laid := LayOutElements(ms, ElementPriors(ms, prior, n), 0, offset, [], read, env);
      PlaceStructures(ms, prior, offset, n, read, env) ==
      if laid.Err? then Err(laid.error)
      else Ok(Placed(StructuresNode(offset, Generation(prior, prior.StructuresNode? && |prior.elements| == n),
                                    laid.value.elements, laid.value.end),
                     Wrap32(laid.value.end - offset), laid.value.readBuffer))
  {
    PlaceStructuresUnfold(ms, prior, offset, n, read, env);
  }

  lemma PlaceStructuresUnfold(ms: seq<Member>, prior: Node, offset: Int32, n: nat, read: bool, env: Env)
    requires WellFormed(ms) && (prior.StructuresNode? ==> forall e | e in prior.elements :: Shaped(ms, e.nodes))
    ensures var laid := LayOutElements(ms, ElementPriors(ms, prior, n), 0, offset, [], read, env);
      PlaceStructures(ms, prior, offset, n, read, env) ==
      if laid.Err? then Err(laid.error)
      else Ok(Placed(StructuresNode(offset, Generation(prior, prior.StructuresNode? && |prior.elements| == n),
                                    laid.value.elements, laid.value.end),
                     Wrap32(laid.value.end - offset), laid.value.readBuffer))
  {
  }

  lemma LayOutElementsUnfold(ms: seq<Member>, priors: seq<seq<Node>>, j: nat, at: Int32,
                             done: seq<Structure>, read: bool, env: Env)
    requires WellFormed(ms) && (forall p | p in priors :: Shaped(ms, p))
    requires j < |priors| && |done| == j && forall e | e in done :: Shaped(ms, e.nodes)
    ensures Shaped(ms, priors[j])
    ensures var laid := LayOut(ms, |ms|, priors[j], at, env);
      LayOutElements(ms, priors, j, at, done, read, env) ==
      if laid.Err? then Err(laid.error)
      else LayOutElements(ms, priors, j + 1, Wrap32(at + laid.value.size),
                          done + [Structure(at, laid.value.nodes, laid.value.size)],
                          read || laid.value.readBuffer, env)
  {
    assert priors[j] in priors;
  }


  /** FieldStructure.Configure: configures the members in turn until the first null one. */
  method ConfigureStructure(ms: seq<Member>, present: nat, prior: seq<Node>, start: Int32, env: Env)
    returns (r: Result<Laid>)
    requires WellFormed(ms) && Shaped(ms, prior) && present <= |ms|
    ensures r == LayOut(ms, present, prior, start, env)
    decreases ms, 3, 0
  {
    var offset: Int32 := start;
    var done: seq<Node> := [];
    var read := false;
    var i := 0;
    while i < present
      invariant i <= present && |done| == i && Configured(ms, done)
      invariant LayOutFrom(ms, present, prior, start, i, offset, done, read, env) == LayOut(ms, present, prior, start, env)
      decreases present - i
    {
      var placed := ConfigureNext(ms, present, prior, start, i, offset, done, read, env);
      if placed.Err? {
        return Err(placed.error);
      }
      offset := Wrap32(offset + placed.value.extent);
      done := done + [placed.value.node];
      read := read || placed.value.readBuffer;
      i := i + 1;
    }
    r := Ok(Laid(done + prior[present..], Wrap32(offset - start), read));
  }

  /** One turn of Configure's loop: member i configured where the previous one ends. */
  method ConfigureNext(ms: seq<Member>, present: nat, prior: seq<Node>, start: Int32,
                       i: nat, offset: Int32, done: seq<Node>, read: bool, env: Env)
    returns (r: Result<Placed>)
    requires WellFormed(ms) && Shaped(ms, prior) && present <= |ms|
    requires i < present && |done| == i && Configured(ms, done)
    ensures r.Err? ==> LayOutFrom(ms, present, prior, start, i, offset, done, read, env) == Err(r.error)
    ensures r.Ok? ==> Configured(ms, done + [r.value.node])
    ensures r.Ok? ==> (LayOutFrom(ms, present, prior, start, i, offset, done, read, env) ==
                       LayOutFrom(ms, present, prior, start, i + 1, Wrap32(offset + r.value.extent),
                                  done + [r.value.node], read || r.value.readBuffer, env))
    decreases ms, 2, 0
  {
    MemberReadyAt(ms, prior, i, done);
    r := ConfigureMember(ms[i], prior[i], offset, done, env);
    LayOutFromMember(ms, present, prior, start, i, offset, done, read, env, r);
  }

  /** How the outcome of member i's Configure decides the rest of Configure's loop. */
  lemma LayOutFromMember(ms: seq<Member>, present: nat, prior: seq<Node>, start: Int32,
                         i: nat, offset: Int32, done: seq<Node>, read: bool, env: Env, r: Result<Placed>)
    requires WellFormed(ms) && Shaped(ms, prior) && present <= |ms|
    requires i < present && |done| == i && Configured(ms, done)
    requires MemberReady(ms[i], prior[i], done) && r == LayOutMember(ms[i], prior[i], offset, done, env)
    ensures r.Err? ==> LayOutFrom(ms, present, prior, start, i, offset, done, read, env) == Err(r.error)
    ensures r.Ok? ==> Configured(ms, done + [r.value.node])
    ensures r.Ok? ==> (LayOutFrom(ms, present, prior, start, i, offset, done, read, env) ==
                       LayOutFrom(ms, present, prior, start, i + 1, Wrap32(offset + r.value.extent),
                                  done + [r.value.node], read || r.value.readBuffer, env))
  {
    if r.Err? {
      LayOutFromFails(ms, present, prior, start, i, offset, done, read, env, r);
    } else {
      ConfiguredStep(ms, done, r.value.node);
      LayOutFromContinues(ms, present, prior, start, i, offset, done, read, env, r.value);
    }
  }

  /** IField.Configure of one member. */
  method ConfigureMember(m: Member, prior: Node, offset: Int32, siblings: seq<Node>, env: Env)
    returns (r: Result<Placed>)
    requires MemberReady(m, prior, siblings)
    ensures r == LayOutMember(m, prior, offset, siblings, env)
    decreases m, 1, 0
  {
    match m
    case Scalar(f) =>
      r := Ok(Placed(FieldNode(f, offset), Size(f.conv), false));
    case Array(conv, c) =>
      var counted := EvalCount(c, siblings, env);
      if counted.Err? {
        return Err(counted.error);
      }
      var n := counted.value.0;
      r := Ok(Placed(ArrayNode(conv, offset, n), Wrap32(Size(conv) * n), counted.value.1));
    case Structures(ms, c) =>
      r := ConfigureStructures(ms, c, prior, offset, siblings, env);
    case Bitmappeds(f, c) =>
      r := ConfigureBitmappeds(f, c, prior, offset, siblings, env);
  }

  /** FieldStructureArray.Configure: a new T[] when the count changed, then each element
      configured where the previous one ends. */
  method ConfigureStructures(ms: seq<Member>, c: Count, prior: Node, offset: Int32, siblings: seq<Node>, env: Env)
    returns (r: Result<Placed>)
    requires MemberReady(Structures(ms, c), prior, siblings)
    ensures r == LayOutStructures(ms, c, prior, offset, siblings, env)
    decreases ms, 6, 0
  {
    var counted := EvalCount(c, siblings, env);
    if counted.Err? {
      r := Err(counted.error);
    } else if counted.value.0 < 0 {
      r := Err(Overflow);
    } else {
      LayOutStructuresUnfold(ms, c, prior, offset, siblings, env, counted.value.0, counted.value.1);
      r := ConfigureStructureArray(ms, prior, offset, counted.value.0, counted.value.1, env);
    }
  }

  /** The elements configured one after another, then the array's node. */
  method ConfigureStructureArray(ms: seq<Member>, prior: Node, offset: Int32, n: nat, read: bool, env: Env)
    returns (r: Result<Placed>)
    requires WellFormed(ms) && (prior.StructuresNode? ==> forall e | e in prior.elements :: Shaped(ms, e.nodes))
    ensures r == PlaceStructures(ms, prior, offset, n, read, env)
    decreases ms, 5, 0
  {
    var laid := ConfigureElements(ms, ElementPriors(ms, prior, n), offset, read, env);
    if laid.Err? {
      r := Err(laid.error);
    } else {
      var reused := prior.StructuresNode? && |prior.elements| == n;
      r := Ok(Placed(StructuresNode(offset, Generation(prior, reused), laid.value.elements, laid.value.end),
                     Wrap32(laid.value.end - offset), laid.value.readBuffer));
    }
    PlaceStructuresUnfold(ms, prior, offset, n, read, env);
  }

  /** The loop over a structure array's elements. */
  method ConfigureElements(ms: seq<Member>, priors: seq<seq<Node>>, offset: Int32, read: bool, env: Env)
    returns (r: Result<ElementsLaid>)
    requires WellFormed(ms) && (forall p | p in priors :: Shaped(ms, p))
    ensures r == LayOutElements(ms, priors, 0, offset, [], read, env)
    decreases ms, 4, 0
  {
    var at: Int32 := offset;
    var done: seq<Structure> := [];
    var readBuffer := read;
    var j := 0;
    while j < |priors|
      invariant j <= |priors| && |done| == j && forall e | e in done :: Shaped(ms, e.nodes)
      invariant LayOutElements(ms, priors, j, at, done, readBuffer, env) ==
                LayOutElements(ms, priors, 0, offset, [], read, env)
      decreases |priors| - j
    {
      LayOutElementsUnfold(ms, priors, j, at, done, readBuffer, env);
      var laid := ConfigureStructure(ms, |ms|, priors[j], at, env);
      if laid.Err? {
        return Err(laid.error);
      }
      done := done + [Structure(at, laid.value.nodes, laid.value.size)];
      at := Wrap32(at + laid.value.size);
      readBuffer := readBuffer || laid.value.readBuffer;
      j := j + 1;
    }
    r := Ok(ElementsLaid(done, at, readBuffer));
  }

  /** BitmappedFieldArray.Configure. */
  method ConfigureBitmappeds(f: FieldDecl, c: Count, prior: Node, offset: Int32, siblings: seq<Node>, env: Env)
    returns (r: Result<Placed>)
    requires MemberReady(Bitmappeds(f, c), prior, siblings)
    ensures r == LayOutBitmappeds(f, c, prior, offset, siblings, env)
  {
    var counted := EvalCount(c, siblings, env);
    if counted.Err? {
      return Err(counted.error);
    }
    var n := counted.value.0;
    if n < 0 {
      return Err(Overflow);
    }
    var reused := prior.BitmappedsNode? && |prior.units| == n;
    var units, end := PlaceUnits(offset, Size(f.conv), n);
    r := Ok(Placed(BitmappedsNode(f, offset, Generation(prior, reused), units, end), Wrap32(end - offset), counted.value.1));
  }

  /** The loop over a bitmapped array's elements: each unit starts where the previous
      one ends. */
  method PlaceUnits(offset: Int32, size: nat, n: nat) returns (units: seq<Int32>, end: Int32)
    ensures units == ElementOffsets(offset, size, n) && end == ElementsEnd(offset, size, n)
  {
    units := [];
    end := offset;
    var j := 0;
    while j < n
      invariant j <= n && |units| == j
      invariant units + ElementOffsets(end, size, n - j) == ElementOffsets(offset, size, n)
      invariant ElementsEnd(end, size, n - j) == ElementsEnd(offset, size, n)
      decreases n - j
    {
      assert ElementOffsets(end, size, n - j) == [end] + ElementOffsets(Wrap32(end + size), size, n - j - 1);
      assert units + ([end] + ElementOffsets(Wrap32(end + size), size, n - j - 1)) ==
             (units + [end]) + ElementOffsets(Wrap32(end + size), size, n - j - 1);
      units := units + [end];
      end := Wrap32(end + size);
      j := j + 1;
    }
    assert units + [] == units;
  }
}
