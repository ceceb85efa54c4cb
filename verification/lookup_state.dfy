/** Environments, variable caches and the references of compiled code to them. */
module LookupState {

  type Symbol = int

  /** What a value cell or a cache can hold; Cached is the trap that attaches a cache to a cell. */
  datatype Object =
    | Plain(value: int)
    | Unassigned
    | Unbound
    | Expensive
    | Macro(transformer: int)
    | Cached(cache: nat)

  /** The binding cells: the global value of a symbol, an argument of a procedure frame, or the cell
      of a binding in a frame's extension. */
  datatype Cell =
    | GlobalCell(sym: Symbol)
    | ArgCell(frame: nat, index: nat)
    | ExtCell(frame: nat, id: nat)

  datatype Binding = Binding(sym: Symbol, id: nat)

  /** An environment frame.  Frame 0 is the global one; a procedure frame has its parameters and the
      bindings of its extension. */
  datatype Frame = Global | Procedure(parent: nat, params: seq<Symbol>, ext: seq<Binding>)

  datatype Kind = Lookups | Assignments | Operators

  /** A place in a compiled-code block. */
  datatype Ref = Ref(block: int, offset: int)
  datatype Entry = Entry(sym: Symbol, refs: seq<Ref>)

  /** The reference lists of a cache, one association list of symbols for each kind. */
  datatype Refs = Refs(lookups: seq<Entry>, assignments: seq<Entry>, operators: seq<Entry>)

  /** A cache; a clone is 0 or another cache.  A clone cache has the value Expensive and leads back. */
  datatype Cache = Cache(value: Object, clone: nat)

  /** The content of a place in a block: a cache, or a link made for a value. */
  datatype Slot = VariableSlot(cache: nat) | UuoLink(value: Object, cache: nat)

  datatype State = State(
    frames: seq<Frame>,
    cells: map<Cell, Object>,
    caches: map<nat, Cache>,
    refs: map<nat, Refs>,
    slots: map<Ref, Slot>,
    blockEnv: map<int, nat>,
    next: nat)

  // ---------------------------------------------------------------- association lists

  /** find_references_named. */
  function RefsOf(al: seq<Entry>, sym: Symbol): seq<Ref> {
    if al == [] then [] else if al[0].sym == sym then al[0].refs else RefsOf(al[1..], sym)
  }

  predicate HasEntry(al: seq<Entry>, sym: Symbol) {
    al != [] && (al[0].sym == sym || HasEntry(al[1..], sym))
  }

  /** Replace the references under sym; a new entry goes to the front. */
  function SetRefs(al: seq<Entry>, sym: Symbol, refs: seq<Ref>): seq<Entry> {
    if HasEntry(al, sym) then ReplaceRefs(al, sym, refs) else [Entry(sym, refs)] + al
  }

  function ReplaceRefs(al: seq<Entry>, sym: Symbol, refs: seq<Ref>): seq<Entry>
    requires HasEntry(al, sym)
  {
    if al[0].sym == sym then [Entry(sym, refs)] + al[1..] else [al[0]] + ReplaceRefs(al[1..], sym, refs)
  }

  /** What a walk over all references leaves: the entries that have some. */
  function Pruned(al: seq<Entry>): seq<Entry> {
    if al == [] then [] else if al[0].refs != [] then [al[0]] + Pruned(al[1..]) else Pruned(al[1..])
  }

  /** All references of the list. */
  function AllRefs(al: seq<Entry>): seq<Ref> {
    if al == [] then [] else al[0].refs + AllRefs(al[1..])
  }

  ghost predicate UniqueSyms(al: seq<Entry>) {
    forall i, j :: 0 <= i < j < |al| ==> al[i].sym != al[j].sym
  }

  function Alist(rs: Refs, kind: Kind): seq<Entry> {
    match kind
    case Lookups => rs.lookups
    case Assignments => rs.assignments
    case Operators => rs.operators
  }

  function WithAlist(rs: Refs, kind: Kind, al: seq<Entry>): Refs {
    match kind
    case Lookups => rs.(lookups := al)
    case Assignments => rs.(assignments := al)
    case Operators => rs.(operators := al)
  }

  // ---------------------------------------------------------------- finding a binding

  function Get(s: State, cell: Cell): Object {
    if cell in s.cells then s.cells[cell] else Unbound
  }

  predicate IsFrame(s: State, f: nat) {
    f < |s.frames| && s.frames[f].Procedure? && s.frames[f].parent < f
  }

  datatype Found = None | Some(cell: Cell)

  /** Search the extension of a frame. */
  function ScanExtension(f: nat, ext: seq<Binding>, sym: Symbol): Found {
    if ext == [] then None else if ext[0].sym == sym then Some(ExtCell(f, ext[0].id))
      else ScanExtension(f, ext[1..], sym)
  }

  /** scan_procedure_bindings, from parameter number i on. */
  function ScanParameters(s: State, f: nat, params: seq<Symbol>, i: nat, sym: Symbol, findUnbound: bool): Found
    decreases |params| - i
  {
    if i >= |params| then None
    else if params[i] == sym && (findUnbound || Get(s, ArgCell(f, i)) != Unbound) then Some(ArgCell(f, i))
    else ScanParameters(s, f, params, i + 1, sym, findUnbound)
  }

  /** scan_frame. */
  function ScanFrame(s: State, f: nat, sym: Symbol, findUnbound: bool): Found {
    if IsFrame(s, f)
    then
      var found := ScanExtension(f, s.frames[f].ext, sym);
      if found.Some? then found else ScanParameters(s, f, s.frames[f].params, 0, sym, findUnbound)
    else Some(GlobalCell(sym))
  }

  /** find_binding_cell. */
  function FindCell(s: State, f: nat, sym: Symbol): Cell
    decreases f
  {
    var found := ScanFrame(s, f, sym, false);
    if found.Some? then found.cell
    else if IsFrame(s, f) then FindCell(s, s.frames[f].parent, sym)
    else GlobalCell(sym)
  }

  /** move_ref_pair_p: the frame f is `ancestor` or inside it. */
  predicate Under(s: State, f: nat, ancestor: nat)
    decreases f
  {
    f == ancestor || (IsFrame(s, f) && Under(s, s.frames[f].parent, ancestor))
  }

  function BlockEnv(s: State, block: int): nat {
    if block in s.blockEnv then s.blockEnv[block] else 0
  }

  function RefEnv(s: State, r: Ref): nat {
    BlockEnv(s, r.block)
  }

  // ---------------------------------------------------------------- the invariant

  /** The reference r is on the list of cache c for the kind and the symbol. */
  ghost predicate Listed(s: State, c: nat, kind: Kind, sym: Symbol, r: Ref) {
    c in s.refs && r in RefsOf(Alist(s.refs[c], kind), sym)
  }

  /** The cache c is attached to the cell. */
  ghost predicate Attached(s: State, cell: Cell, c: nat) {
    Get(s, cell) == Cached(c)
  }

  /** A proper cache: it has reference lists, it is not a clone, and its clone leads back to it. */
  ghost predicate CacheOk(s: State, c: nat) {
    && c in s.caches && c in s.refs && 0 < c < s.next
    && !s.caches[c].value.Expensive? && !s.caches[c].value.Cached?
    && (forall kind :: UniqueSyms(Alist(s.refs[c], kind)))
    && var k := s.caches[c].clone;
       k != 0 ==> k in s.caches && k < s.next && k !in s.refs && s.caches[k] == Cache(Expensive, c)
  }

  ghost predicate FrameOk(s: State, f: nat) {
    IsFrame(s, f) ==>
      && (forall i :: 0 <= i < |s.frames[f].ext| ==> s.frames[f].ext[i].id < s.next)
      && (forall i, j :: 0 <= i < j < |s.frames[f].ext| ==>
         s.frames[f].ext[i].sym != s.frames[f].ext[j].sym && s.frames[f].ext[i].id != s.frames[f].ext[j].id)
      && (forall i, j :: 0 <= i < |s.frames[f].ext| && 0 <= j < |s.frames[f].params| ==>
         s.frames[f].ext[i].sym != s.frames[f].params[j])
      && (forall i, j :: 0 <= i < j < |s.frames[f].params| ==> s.frames[f].params[i] != s.frames[f].params[j])
  }

  ghost predicate CellOk(s: State, cell: Cell) {
    match Get(s, cell)
    case Cached(c) => CacheOk(s, c)
    case Expensive => false
    case _ => true
  }

  /** The data structures are sound. */
  ghost predicate Sound(s: State) {
    && 0 < s.next && 0 < |s.frames| && s.frames[0] == Global
    && (forall f {:trigger FrameOk(s, f)} :: 0 <= f < |s.frames| ==> FrameOk(s, f))
    && (forall f {:trigger s.frames[f]} :: 0 < f < |s.frames| ==> IsFrame(s, f))
    && (forall cell {:trigger CellOk(s, cell)} :: CellOk(s, cell))
    && (forall c {:trigger CacheOk(s, c)} :: c in s.refs ==> CacheOk(s, c))
    && (forall k {:trigger k in s.caches} :: k in s.caches ==> k < s.next)
    && (forall b {:trigger b in s.blockEnv} :: b in s.blockEnv ==> s.blockEnv[b] < |s.frames|)
    && (forall cell, cell', c {:trigger Attached(s, cell, c), Attached(s, cell', c)} ::
          Attached(s, cell, c) && Attached(s, cell', c) ==> cell == cell')
  }

  /** No place in a block is referenced in two ways. */
  ghost predicate OneOwner(s: State) {
    forall c, kind, sym, c', kind', sym', r {:trigger Listed(s, c, kind, sym, r), Listed(s, c', kind', sym', r)} ::
      Listed(s, c, kind, sym, r) && Listed(s, c', kind', sym', r) ==> c == c' && kind == kind' && sym == sym'
  }

  /** Every reference belongs to the cache of the cell that find_binding_cell gives for its block's
      environment and symbol. */
  ghost predicate Agree(s: State) {
    forall c, kind, sym, r {:trigger Listed(s, c, kind, sym, r)} ::
      Listed(s, c, kind, sym, r) ==> Attached(s, FindCell(s, RefEnv(s, r), sym), c)
  }

  function CloneOf(s: State, c: nat): nat {
    if c in s.caches then s.caches[c].clone else 0
  }

  function ValueOf(s: State, c: nat): Object {
    if c in s.caches then s.caches[c].value else Unbound
  }

  /** The cache that assignment references use. */
  function AssignmentTarget(s: State, c: nat): nat {
    if CloneOf(s, c) != 0 then CloneOf(s, c) else c
  }

  /** What install_cache puts into a block. */
  function Installed(s: State, c: nat, kind: Kind): Slot {
    match kind
    case Lookups => VariableSlot(c)
    case Assignments => VariableSlot(AssignmentTarget(s, c))
    case Operators => UuoLink(ValueOf(s, c), c)
  }

  ghost predicate SlotOk(s: State, c: nat, kind: Kind, r: Ref) {
    r in s.slots && s.slots[r] == Installed(s, c, kind)
  }

  /** Every place but those in x holds what its reference demands. */
  ghost predicate Linked(s: State, kind: Kind, x: set<Ref>) {
    forall c, sym, r {:trigger Listed(s, c, kind, sym, r)} ::
      Listed(s, c, kind, sym, r) && r !in x ==> SlotOk(s, c, kind, r)
  }

  ghost predicate AllLinked(s: State, x: set<Ref>) {
    Linked(s, Lookups, x) && Linked(s, Assignments, x) && Linked(s, Operators, x)
  }

  /** A cache with assignment and operator references has a clone. */
  ghost predicate CloneOk(s: State, c: nat) {
    c in s.refs && s.refs[c].assignments != [] && s.refs[c].operators != [] ==> CloneOf(s, c) != 0
  }

  ghost predicate Cloned(s: State, x: set<nat>) {
    forall c {:trigger CloneOk(s, c)} :: c !in x ==> CloneOk(s, c)
  }

  ghost predicate Inv(s: State) {
    Sound(s) && OneOwner(s) && Agree(s) && AllLinked(s, {}) && Cloned(s, {})
  }
}
