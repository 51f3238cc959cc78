/** `Status`: a reference-counted copy-on-write value behind a one-word handle. */
module Statuses {
  import opened Arithmetic
  import opened Options

  datatype Payload = Payload(typeUrl: string, payload: string)

  datatype Rep = Rep(refs: nat, code: nat, message: string, payloads: Option<seq<Payload>>)

  type Handle = nat
  type Address = nat

  const KOK: nat := 0
  const KINTERNAL: nat := 13
  const MOVED_FROM_MESSAGE: string := "Status accessed after move."

  // ------------------------------------------------------- the word `rep_`

  /** What the word says: a bare code, or the address of a rep. */
  datatype Word = Inlined(code: nat, movedFrom: bool) | Pointer(address: Address)

  const MOVED_FROM_REP: Word := Inlined(KINTERNAL, true)

  /** The bits of the word; reps lie at even addresses. */
  function Encode(w: Word): nat {
    match w
    case Inlined(code, movedFrom) => 4 * code + (if movedFrom then 2 else 0)
    case Pointer(a) => a + 1
  }

  /** Reading the bits back as `IsInlined`, `IsMovedFrom`, `InlinedRepToCode` and
      `RepToPointer` do. */
  function Decode(bits: nat): Word {
    if bits % 2 == 0 then Inlined(bits / 4, bits / 2 % 2 == 1) else Pointer(bits - 1)
  }

  /** Both representations share one word without ambiguity. */
  lemma DecodeEncode(w: Word)
    requires w.Pointer? ==> w.address % 2 == 0
    ensures Decode(Encode(w)) == w
  {
    match w
    case Inlined(code, movedFrom) =>
      var b := if movedFrom then 1 else 0;
      Division(Encode(w), code, 2 * b, 4);
      Division(Encode(w), 2 * code + b, 0, 2);
      Division(2 * code + b, code, b, 2);
    case Pointer(a) =>
      Division(a + 1, a / 2, 1, 2);
  }

  // --------------------------------------------------- what a status means

  datatype Value = Value(code: nat, movedFrom: bool, message: string, payloads: map<string, string>)

  function PayloadMap(ps: seq<Payload>): map<string, string> {
    if ps == [] then map[] else PayloadMap(ps[..|ps| - 1])[ps[|ps| - 1].typeUrl := ps[|ps| - 1].payload]
  }

  function PayloadsOf(rep: Rep): seq<Payload> {
    if rep.payloads.Some? then rep.payloads.value else []
  }

  function RepValue(rep: Rep): Value {
    Value(rep.code, false, rep.message, PayloadMap(PayloadsOf(rep)))
  }

  function InlinedValue(code: nat, movedFrom: bool): Value {
    Value(code, movedFrom, if movedFrom then MOVED_FROM_MESSAGE else "", map[])
  }

  predicate Points(reps: map<Address, Rep>, w: Word) { w.Pointer? ==> w.address in reps }

  function ValueOf(reps: map<Address, Rep>, w: Word): Value
    requires Points(reps, w)
  {
    if w.Inlined? then InlinedValue(w.code, w.movedFrom) else RepValue(reps[w.address])
  }

  const MOVED_FROM: Value := InlinedValue(KINTERNAL, true)

  // ------------------------------------------------------------- ownership

  function Holders(handles: map<Handle, Word>, w: Word): set<Handle> {
    set h | h in handles && handles[h] == w
  }

  predicate UniqueUrls(ps: seq<Payload>) {
    forall i, j :: 0 <= i < j < |ps| ==> ps[i].typeUrl != ps[j].typeUrl
  }

  /** What can be represented inlined must be inlined. */
  predicate Canonical(rep: Rep) { rep.message != "" || PayloadsOf(rep) != [] }

  predicate RepOk(a: Address, rep: Rep) {
    a % 2 == 0 && rep.refs > 0 && rep.code != KOK && UniqueUrls(PayloadsOf(rep))
  }

  /** Each rep counts its holders and is there because it has some; reps other
      than `except` are in canonical form. */
  ghost predicate Inv(reps: map<Address, Rep>, handles: map<Handle, Word>, except: set<Address>)
    ensures Inv(reps, handles, except) ==> forall h :: h in handles ==> Points(reps, handles[h])
  {
    && (forall a :: a in reps ==> RepOk(a, reps[a]) && reps[a].refs == |Holders(handles, Pointer(a))|)
    && (forall a :: a in reps && a !in except ==> Canonical(reps[a]))
    && (forall h :: h in handles ==> Points(reps, handles[h]))
    && (forall h :: h in handles && handles[h].Inlined? && handles[h].movedFrom ==> handles[h] == MOVED_FROM_REP)
  }

  ghost function Values(reps: map<Address, Rep>, handles: map<Handle, Word>): map<Handle, Value>
    requires forall h :: h in handles ==> Points(reps, handles[h])
  {
    map h | h in handles :: ValueOf(reps, handles[h])
  }

  function RefRep(reps: map<Address, Rep>, w: Word): map<Address, Rep>
    requires Points(reps, w)
  {
    if w.Inlined? then reps
    else var a := w.address; reps[a := reps[a].(refs := reps[a].refs + 1)]
  }

  function UnrefRep(reps: map<Address, Rep>, w: Word): map<Address, Rep>
    requires Points(reps, w)
  {
    if w.Inlined? then reps
    else
      var a := w.address;
      if reps[a].refs <= 1 then reps - {a} else reps[a := reps[a].(refs := reps[a].refs - 1)]
  }

  lemma HoldersSet(handles: map<Handle, Word>, h: Handle, w: Word, v: Word)
    ensures |Holders(handles[h := w], v)|
         == |Holders(handles, v)| - (if h in handles && handles[h] == v then 1 else 0) + (if w == v then 1 else 0)
  {
    var before := Holders(handles, v);
    assert Holders(handles[h := w], v) == if w == v then before + {h} else before - {h};
    assert h in before <==> h in handles && handles[h] == v;
  }

  lemma HoldersDropped(handles: map<Handle, Word>, h: Handle, v: Word)
    requires h in handles
    ensures |Holders(handles - {h}, v)| == |Holders(handles, v)| - (if handles[h] == v then 1 else 0)
  {
    var before := Holders(handles, v);
    assert Holders(handles - {h}, v) == before - {h};
    assert h in before <==> handles[h] == v;
  }

  lemma HolderCounts(reps: map<Address, Rep>, handles: map<Handle, Word>, except: set<Address>, h: Handle, g: Handle)
    requires Inv(reps, handles, except) && h in handles && g in handles && h != g
    requires handles[g].Pointer? && handles[g] == handles[h]
    ensures reps[handles[g].address].refs >= 2
  {
    var holders := Holders(handles, handles[g]);
    assert {h, g} <= holders;
    assert |holders - {h, g}| == |holders| - 2;
  }

  /** A new handle, or an existing one, starts to share the rep behind `w`. */
  lemma ShareKeepsInv(reps: map<Address, Rep>, handles: map<Handle, Word>, h: Handle, w: Word, except: set<Address>)
    requires Inv(reps, handles, except) && h !in handles && Points(reps, w)
    requires w.Inlined? && w.movedFrom ==> w == MOVED_FROM_REP
    ensures Inv(RefRep(reps, w), handles[h := w], except)
    ensures Values(RefRep(reps, w), handles[h := w]) == Values(reps, handles)[h := ValueOf(reps, w)]
  {
    hide Values, ValueOf, RepOk, Holders;
    ShareKeepsValues(reps, handles, h, w);
    var reps' := RefRep(reps, w);
    forall a | a in reps'
      ensures reps'[a].refs == |Holders(handles[h := w], Pointer(a))|
    {
      HoldersSet(handles, h, w, Pointer(a));
    }
    RefKeepsReps(reps, w);
  }

  lemma RefKeepsReps(reps: map<Address, Rep>, w: Word)
    requires Points(reps, w)
    ensures RefRep(reps, w).Keys == reps.Keys
    ensures forall a :: a in reps && RepOk(a, reps[a]) ==> RepOk(a, RefRep(reps, w)[a])
  {
  }

  lemma ShareKeepsValues(reps: map<Address, Rep>, handles: map<Handle, Word>, h: Handle, w: Word)
    requires (forall g :: g in handles ==> Points(reps, handles[g])) && h !in handles && Points(reps, w)
    ensures var now := handles[h := w]; forall g :: g in now ==> Points(RefRep(reps, w), now[g])
    ensures Values(RefRep(reps, w), handles[h := w]) == Values(reps, handles)[h := ValueOf(reps, w)]
  {
    RefKeepsValue(reps, w, w);
    forall g | g in handles
      ensures Points(RefRep(reps, w), handles[g]) && ValueOf(RefRep(reps, w), handles[g]) == ValueOf(reps, handles[g])
    {
      RefKeepsValue(reps, w, handles[g]);
    }
    hide ValueOf, RefRep, Points;
  }

  lemma RefKeepsValue(reps: map<Address, Rep>, w: Word, v: Word)
    requires Points(reps, w) && Points(reps, v)
    ensures Points(RefRep(reps, w), v) && ValueOf(RefRep(reps, w), v) == ValueOf(reps, v)
  {
  }

  /** A handle goes; its rep goes with it if nobody else holds it. */
  lemma DropKeepsInv(reps: map<Address, Rep>, handles: map<Handle, Word>, h: Handle, except: set<Address>)
    requires Inv(reps, handles, except) && h in handles
    ensures Inv(UnrefRep(reps, handles[h]), handles - {h}, except)
    ensures Values(UnrefRep(reps, handles[h]), handles - {h}) == Values(reps, handles) - {h}
  {
    hide ValueOf, Values, Canonical;
    var reps', handles' := UnrefRep(reps, handles[h]), handles - {h};
    forall a | a in reps'
      ensures reps'[a].refs == |Holders(handles', Pointer(a))|
    {
      HoldersDropped(handles, h, Pointer(a));
    }
    UnrefKeepsReps(reps, handles[h]);
    DropKeepsValues(reps, handles, h, except);
  }

  lemma UnrefKeepsReps(reps: map<Address, Rep>, w: Word)
    requires Points(reps, w) && (w.Pointer? ==> reps[w.address].refs > 0)
    ensures forall a :: a in UnrefRep(reps, w) ==>
      && a in reps && UnrefRep(reps, w)[a] == reps[a].(refs := UnrefRep(reps, w)[a].refs)
      && (RepOk(a, reps[a]) ==> RepOk(a, UnrefRep(reps, w)[a]))
      && (Canonical(reps[a]) ==> Canonical(UnrefRep(reps, w)[a]))
  {
  }

  lemma DropKeepsValues(reps: map<Address, Rep>, handles: map<Handle, Word>, h: Handle, except: set<Address>)
    requires Inv(reps, handles, except) && h in handles
    ensures var reps', handles' := UnrefRep(reps, handles[h]), handles - {h};
            && (forall g :: g in handles' ==> Points(reps', handles'[g]))
            && Values(reps', handles') == Values(reps, handles) - {h}
  {
    var reps', handles' := UnrefRep(reps, handles[h]), handles - {h};
    forall g | g in handles'
      ensures Points(reps', handles'[g]) && ValueOf(reps', handles'[g]) == ValueOf(reps, handles[g])
    {
      if handles[g].Pointer? && handles[g] == handles[h] {
        HolderCounts(reps, handles, except, h, g);
      }
    }
    hide Inv, ValueOf, UnrefRep;
  }

  /** Dropping one rep and sharing another do not interfere. */
  lemma UnrefRefCommute(reps: map<Address, Rep>, old_: Word, w: Word)
    requires Points(reps, old_) && Points(reps, w) && old_ != w
    ensures Points(UnrefRep(reps, old_), w) && Points(RefRep(reps, w), old_)
    ensures UnrefRep(RefRep(reps, w), old_) == RefRep(UnrefRep(reps, old_), w)
    ensures ValueOf(UnrefRep(reps, old_), w) == ValueOf(reps, w)
  {
  }

  lemma AssignKeepsInv(reps: map<Address, Rep>, handles: map<Handle, Word>, h: Handle, w: Word)
    requires Inv(reps, handles, {}) && h in handles && Points(reps, w) && handles[h] != w
    requires w.Inlined? && w.movedFrom ==> w == MOVED_FROM_REP
    ensures Points(RefRep(reps, w), handles[h])
    ensures var reps' := UnrefRep(RefRep(reps, w), handles[h]);
            Inv(reps', handles[h := w], {})
                && Values(reps', handles[h := w]) == Values(reps, handles)[h := ValueOf(reps, w)]
  {
    hide UnrefRep, RefRep, RepOk, Canonical, ValueOf;
    UnrefRefCommute(reps, handles[h], w);
    DropKeepsInv(reps, handles, h, {});
    ShareKeepsInv(UnrefRep(reps, handles[h]), handles - {h}, h, w, {});
    assert (handles - {h})[h := w] == handles[h := w];
    var vs, v := Values(reps, handles), ValueOf(reps, w);
    assert (vs - {h})[h := v] == vs[h := v];
  }

  /** Ownership passes from `x` to a new handle `h`; no count changes. */
  lemma MoveKeepsInv(reps: map<Address, Rep>, handles: map<Handle, Word>, h: Handle, x: Handle)
    requires Inv(reps, handles, {}) && h !in handles && x in handles
    ensures var handles' := handles[h := handles[x]][x := MOVED_FROM_REP];
            && Inv(reps, handles', {})
            && Values(reps, handles') == Values(reps, handles)[h := ValueOf(reps, handles[x])][x := MOVED_FROM]
  {
    var handles1 := handles[h := handles[x]];
    forall a | a in reps
      ensures reps[a].refs == |Holders(handles1[x := MOVED_FROM_REP], Pointer(a))|
    {
      HoldersSet(handles, h, handles[x], Pointer(a));
      HoldersSet(handles1, x, MOVED_FROM_REP, Pointer(a));
    }
  }

  lemma SwapKeepsInv(reps: map<Address, Rep>, handles: map<Handle, Word>, x: Handle, y: Handle)
    requires Inv(reps, handles, {}) && x in handles && y in handles
    ensures var handles' := handles[x := handles[y]][y := handles[x]];
            && Inv(reps, handles', {})
            && Values(reps, handles')
                == Values(reps, handles)[x := ValueOf(reps, handles[y])][y := ValueOf(reps, handles[x])]
  {
    var handles1 := handles[x := handles[y]];
    forall a | a in reps
      ensures reps[a].refs == |Holders(handles1[y := handles[x]], Pointer(a))|
    {
      HoldersSet(handles, x, handles[y], Pointer(a));
      HoldersSet(handles1, y, handles[x], Pointer(a));
    }
  }

  /** A handle gets a rep of its own. */
  lemma AllocKeepsInv(reps: map<Address, Rep>, handles: map<Handle, Word>, h: Handle, a: Address, rep: Rep)
    requires Inv(reps, handles, {}) && h !in handles && a !in reps && RepOk(a, rep) && rep.refs == 1
    ensures Inv(reps[a := rep], handles[h := Pointer(a)], {a})
    ensures Values(reps[a := rep], handles[h := Pointer(a)]) == Values(reps, handles)[h := RepValue(rep)]
  {
    assert Holders(handles, Pointer(a)) == {};
    var reps' := reps[a := rep];
    forall b | b in reps'
      ensures reps'[b].refs == |Holders(handles[h := Pointer(a)], Pointer(b))|
    {
      HoldersSet(handles, h, Pointer(a), Pointer(b));
    }
  }

  lemma UnrefAllocCommute(reps: map<Address, Rep>, w: Word, a: Address, rep: Rep)
    requires Points(reps, w) && a !in reps
    ensures a !in UnrefRep(reps, w) && UnrefRep(reps[a := rep], w) == UnrefRep(reps, w)[a := rep]
  {
  }

  /** A handle that exists already trades its rep for one of its own. */
  lemma CloneKeepsInv(reps: map<Address, Rep>, handles: map<Handle, Word>, h: Handle, a: Address, rep: Rep)
    requires Inv(reps, handles, {}) && h in handles && a !in reps && RepOk(a, rep) && rep.refs == 1
    ensures var reps' := UnrefRep(reps[a := rep], handles[h]);
            && Inv(reps', handles[h := Pointer(a)], {a}) && a in reps' && reps'[a] == rep
            && Values(reps', handles[h := Pointer(a)]) == Values(reps, handles)[h := RepValue(rep)]
  {
    hide UnrefRep, RepOk, Canonical, ValueOf, RepValue;
    UnrefAllocCommute(reps, handles[h], a, rep);
    DropKeepsInv(reps, handles, h, {});
    AllocKeepsInv(UnrefRep(reps, handles[h]), handles - {h}, h, a, rep);
    assert (handles - {h})[h := Pointer(a)] == handles[h := Pointer(a)];
    var vs, v := Values(reps, handles), RepValue(rep);
    assert (vs - {h})[h := v] == vs[h := v];
  }

  /** Writing to a rep that nobody shares changes one value only. */
  lemma WriteKeepsInv(reps: map<Address, Rep>, handles: map<Handle, Word>, h: Handle, a: Address, rep: Rep)
    requires a in reps && Inv(reps, handles, {a}) && h in handles && handles[h] == Pointer(a)
    requires reps[a].refs == 1 && RepOk(a, rep) && rep.refs == 1
    ensures Inv(reps[a := rep], handles, {a})
    ensures Values(reps[a := rep], handles) == Values(reps, handles)[h := RepValue(rep)]
  {
    forall g | g in handles && g != h
      ensures handles[g] != Pointer(a)
    {
      if handles[g] == Pointer(a) {
        HolderCounts(reps, handles, {a}, h, g);
      }
    }
  }

  lemma SealKeepsInv(reps: map<Address, Rep>, handles: map<Handle, Word>, a: Address)
    requires Inv(reps, handles, {a}) && (a in reps ==> Canonical(reps[a]))
    ensures Inv(reps, handles, {})
  {
  }

  /** A rep exists exactly as long as some handle points to it. */
  lemma LiveIffHeld(reps: map<Address, Rep>, handles: map<Handle, Word>, a: Address)
    requires Inv(reps, handles, {})
    ensures a in reps <==> exists h :: h in handles && handles[h] == Pointer(a)
    ensures a in reps ==> reps[a].refs == |Holders(handles, Pointer(a))|
  {
    if a in reps {
      var h :| h in Holders(handles, Pointer(a));
    }
  }

  // --------------------------------------------------------------- payloads

  lemma {:induction false} PayloadMapKeys(ps: seq<Payload>, u: string)
    ensures u in PayloadMap(ps) <==> exists i :: 0 <= i < |ps| && ps[i].typeUrl == u
  {
    if ps != [] {
      var front := ps[..|ps| - 1];
      PayloadMapKeys(front, u);
      if u in PayloadMap(front) {
        var i :| 0 <= i < |front| && front[i].typeUrl == u;
        assert ps[i].typeUrl == u;
      }
      if exists i :: 0 <= i < |ps| && ps[i].typeUrl == u {
        var i :| 0 <= i < |ps| && ps[i].typeUrl == u;
        assert i < |ps| - 1 ==> front[i].typeUrl == u;
      }
    }
  }

  lemma {:induction false} PayloadMapAt(ps: seq<Payload>, i: nat)
    requires UniqueUrls(ps) && i < |ps|
    ensures ps[i].typeUrl in PayloadMap(ps) && PayloadMap(ps)[ps[i].typeUrl] == ps[i].payload
  {
    var last := |ps| - 1;
    if i < last {
      PayloadMapAt(ps[..last], i);
    }
  }

  lemma PayloadMapReplaced(ps: seq<Payload>, i: nat, payload: string)
    requires UniqueUrls(ps) && i < |ps|
    ensures var ps' := ps[i := ps[i].(payload := payload)];
            UniqueUrls(ps') && PayloadMap(ps') == PayloadMap(ps)[ps[i].typeUrl := payload]
  {
    var ps' := ps[i := ps[i].(payload := payload)];
    forall u: string
      ensures u in PayloadMap(ps') <==> u in PayloadMap(ps)[ps[i].typeUrl := payload]
      ensures u in PayloadMap(ps') ==> PayloadMap(ps')[u] == PayloadMap(ps)[ps[i].typeUrl := payload][u]
    {
      PayloadMapKeys(ps, u);
      PayloadMapKeys(ps', u);
      if u in PayloadMap(ps) {
        var j :| 0 <= j < |ps| && ps[j].typeUrl == u;
        assert ps'[j].typeUrl == u;
        PayloadMapAt(ps, j);
        PayloadMapAt(ps', j);
      }
      if u in PayloadMap(ps') {
        var j :| 0 <= j < |ps'| && ps'[j].typeUrl == u;
        assert ps[j].typeUrl == u;
      }
    }
  }

  lemma PayloadMapAppended(ps: seq<Payload>, p: Payload)
    requires UniqueUrls(ps) && forall i :: 0 <= i < |ps| ==> ps[i].typeUrl != p.typeUrl
    ensures UniqueUrls(ps + [p]) && PayloadMap(ps + [p]) == PayloadMap(ps)[p.typeUrl := p.payload]
  {
    assert (ps + [p])[..|ps|] == ps;
  }

  function Without<T>(s: seq<T>, i: nat): seq<T>
    requires i < |s|
  {
    s[..i] + s[i + 1..]
  }

  lemma ErasedUrls(ps: seq<Payload>, i: nat, u: string)
    requires UniqueUrls(ps) && i < |ps|
    ensures (exists j :: 0 <= j < |Without(ps, i)| && Without(ps, i)[j].typeUrl == u)
        <==> (exists j :: 0 <= j < |ps| && ps[j].typeUrl == u) && u != ps[i].typeUrl
  {
    var ps' := Without(ps, i);
    if j :| 0 <= j < |ps'| && ps'[j].typeUrl == u {
      assert ps[if j < i then j else j + 1].typeUrl == u;
    }
    if j :| 0 <= j < |ps| && ps[j].typeUrl == u && u != ps[i].typeUrl {
      assert ps'[if j < i then j else j - 1].typeUrl == u;
    }
  }

  lemma KeptPayload(ps: seq<Payload>, i: nat, j: nat)
    requires UniqueUrls(ps) && i < |ps| && UniqueUrls(Without(ps, i)) && j < |ps| - 1
    ensures var p := Without(ps, i)[j];
            && p.typeUrl in PayloadMap(ps) && p.typeUrl in PayloadMap(Without(ps, i))
            && PayloadMap(Without(ps, i))[p.typeUrl] == PayloadMap(ps)[p.typeUrl]
  {
    hide PayloadMap, UniqueUrls;
    PayloadMapAt(Without(ps, i), j);
    PayloadMapAt(ps, if j < i then j else j + 1);
  }

  lemma PayloadMapErasedAt(ps: seq<Payload>, i: nat, u: string)
    requires UniqueUrls(ps) && i < |ps| && UniqueUrls(Without(ps, i))
    ensures u in PayloadMap(Without(ps, i)) <==> u in PayloadMap(ps) && u != ps[i].typeUrl
    ensures u in PayloadMap(Without(ps, i)) ==> PayloadMap(Without(ps, i))[u] == PayloadMap(ps)[u]
  {
    hide PayloadMap, UniqueUrls, Without;
    PayloadMapKeys(ps, u);
    PayloadMapKeys(Without(ps, i), u);
    ErasedUrls(ps, i, u);
    if u in PayloadMap(Without(ps, i)) {
      var j :| 0 <= j < |Without(ps, i)| && Without(ps, i)[j].typeUrl == u;
      WithoutLength(ps, i);
      KeptPayload(ps, i, j);
    }
  }

  lemma WithoutLength<T>(s: seq<T>, i: nat)
    requires i < |s|
    ensures |Without(s, i)| == |s| - 1
  {
  }

  lemma PayloadMapErased(ps: seq<Payload>, i: nat)
    requires UniqueUrls(ps) && i < |ps|
    ensures UniqueUrls(Without(ps, i)) && PayloadMap(Without(ps, i)) == PayloadMap(ps) - {ps[i].typeUrl}
  {
    hide PayloadMap;
    forall u: string {
      PayloadMapErasedAt(ps, i, u);
    }
  }

  // -------------------------------------------------------- the operations

  /** -1, or the first place of `url`. */
  method FindPayloadIndexByUrl(payloads: Option<seq<Payload>>, url: string) returns (index: int)
    ensures index == -1
        <==> payloads == None || forall i :: 0 <= i < |payloads.value| ==> payloads.value[i].typeUrl != url
    ensures index != -1 ==> payloads.Some? && 0 <= index < |payloads.value| && payloads.value[index].typeUrl == url
  {
    if payloads == None {
      return -1;
    }
    for i := 0 to |payloads.value|
      invariant forall j :: 0 <= j < i ==> payloads.value[j].typeUrl != url
    {
      if payloads.value[i].typeUrl == url {
        return i;
      }
    }
    return -1;
  }

  /** All statuses of a program and the reps they share. */
  class StatusHeap {
    var reps: map<Address, Rep>
    var handles: map<Handle, Word>

    ghost predicate Valid()
      reads this
    {
      Inv(reps, handles, {})
    }

    ghost function All(): (values: map<Handle, Value>)
      requires forall h :: h in handles ==> Points(reps, handles[h])
      reads this
      ensures values.Keys == handles.Keys
    {
      Values(reps, handles)
    }

    constructor ()
      ensures Valid() && handles == map[] && reps == map[]
    {
      reps, handles := map[], map[];
    }

    method Ref(w: Word)
      requires Points(reps, w)
      modifies this`reps
      ensures reps == RefRep(old(reps), w)
    {
      if w.Pointer? {
        var rep := reps[w.address];
        reps := reps[w.address := rep.(refs := rep.refs + 1)];
      }
    }

    method Unref(w: Word)
      requires Points(reps, w) && (w.Pointer? ==> reps[w.address].refs > 0)
      modifies this`reps
      ensures reps == UnrefRep(old(reps), w)
    {
      if w.Pointer? {
        var rep := reps[w.address];
        var gone := rep.refs == 1;
        if !gone {
          reps := reps[w.address := rep.(refs := rep.refs - 1)];
          gone := rep.refs - 1 == 0;
        }
        if gone {
          reps := reps - {w.address};
        }
      }
    }

    /** `Status(code, message)`; `a` is where a rep would be allocated. */
    method Construct(h: Handle, code: nat, message: string, a: Address)
      requires Valid() && h !in handles && a % 2 == 0 && a !in reps
      modifies this
      ensures Valid() && All() == old(All())[h := Value(code, false, if code == KOK then "" else message, map[])]
      ensures code == KOK || message == "" ==> reps == old(reps)
    {
      ShareKeepsInv(reps, handles, h, Inlined(code, false), {});
      if code != KOK && message != "" {
        var rep := Rep(1, code, message, None);
        AllocKeepsInv(reps, handles, h, a, rep);
        reps, handles := reps[a := rep], handles[h := Pointer(a)];
        SealKeepsInv(reps, handles, a);
      } else {
        handles := handles[h := Inlined(code, false)];
      }
    }

    method CopyConstruct(h: Handle, x: Handle)
      requires Valid() && h !in handles && x in handles
      modifies this
      ensures Valid() && All() == old(All())[h := old(All())[x]]
    {
      ShareKeepsInv(reps, handles, h, handles[x], {});
      Ref(handles[x]);
      handles := handles[h := handles[x]];
    }

    method MoveConstruct(h: Handle, x: Handle)
      requires Valid() && h !in handles && x in handles
      modifies this
      ensures Valid() && All() == old(All())[h := old(All())[x]][x := MOVED_FROM]
      ensures reps == old(reps)
    {
      MoveKeepsInv(reps, handles, h, x);
      handles := handles[h := handles[x]];
      handles := handles[x := MOVED_FROM_REP];
    }

    method CopyAssign(h: Handle, x: Handle)
      requires Valid() && h in handles && x in handles
      modifies this
      ensures Valid() && All() == old(All())[h := old(All())[x]]
    {
      var oldRep := handles[h];
      if handles[x] != oldRep {
        AssignKeepsInv(reps, handles, h, handles[x]);
        UnrefRefCommute(reps, oldRep, handles[x]);
        Ref(handles[x]);
        handles := handles[h := handles[x]];
        Unref(oldRep);
      }
    }

    /** Two handles on the same rep are left as they are, the source included. */
    method MoveAssign(h: Handle, x: Handle)
      requires Valid() && h in handles && x in handles
      modifies this
      ensures Valid()
      ensures All() == if old(handles[h] == handles[x]) then old(All())
          else old(All())[h := old(All())[x]][x := MOVED_FROM]
    {
      var oldRep := handles[h];
      if handles[x] != oldRep {
        ghost var w := handles[x];
        ghost var before: map<Handle, Value> := All();
        UnrefRefCommute(reps, oldRep, w);
        DropKeepsInv(reps, handles, h, {});
        MoveKeepsInv(UnrefRep(reps, oldRep), handles - {h}, h, x);
        assert (handles - {h})[h := w][x := MOVED_FROM_REP] == handles[h := w][x := MOVED_FROM_REP];
        assert (before - {h})[h := before[x]][x := MOVED_FROM] == before[h := before[x]][x := MOVED_FROM];
        handles := handles[h := handles[x]];
        handles := handles[x := MOVED_FROM_REP];
        Unref(oldRep);
      }
    }

    method Swap(x: Handle, y: Handle)
      requires Valid() && x in handles && y in handles
      modifies this
      ensures Valid() && All() == old(All())[x := old(All())[y]][y := old(All())[x]] && reps == old(reps)
    {
      SwapKeepsInv(reps, handles, x, y);
      handles := handles[x := handles[y]][y := handles[x]];
    }

    method Destroy(h: Handle)
      requires Valid() && h in handles
      modifies this
      ensures Valid() && All() == old(All()) - {h}
    {
      DropKeepsInv(reps, handles, h, {});
      Unref(handles[h]);
      handles := handles - {h};
    }

    predicate Ok(h: Handle)
      requires h in handles
      reads this
    {
      handles[h] == Inlined(KOK, false)
    }

    /** Afterwards `h` has a rep of its own; `newRep` is where it is allocated if need be.
        A moved-from status loses its message. */
    method PrepareToModify(h: Handle, newRep: Address) returns (a: Address)
      requires Valid() && h in handles && !Ok(h) && newRep % 2 == 0 && newRep !in reps
      modifies this
      ensures Inv(reps, handles, {a}) && h in handles && handles[h] == Pointer(a) && a in reps && reps[a].refs == 1
      ensures var v := old(All())[h];
              All() == old(All())[h := Value(v.code, false, if v.movedFrom then "" else v.message, v.payloads)]
    {
      var w := handles[h];
      ghost var before: map<Handle, Value> := All();
      if w.Pointer? && reps[w.address].refs == 1 {
        a := w.address;
        assert before[h := before[h]] == before;
        return;
      }
      a := newRep;
      var rep := if w.Inlined? then Rep(1, w.code, "", None) else reps[w.address].(refs := 1);
      CloneKeepsInv(reps, handles, h, a, rep);
      reps, handles := reps[a := rep], handles[h := Pointer(a)];
      Unref(w);
    }

    method SetPayload(h: Handle, url: string, payload: string, newRep: Address)
      requires Valid() && h in handles && newRep % 2 == 0 && newRep !in reps
      modifies this
      ensures Valid()
      ensures var v := old(All())[h];
              All() == if old(Ok(h)) then old(All())
                       else old(All())[h := Value(v.code, false, if v.movedFrom then "" else v.message,
                                                  v.payloads[url := payload])]
    {
      hide PayloadMap, UniqueUrls, Holders, Inv;
      if Ok(h) {
        return;
      }
      var a := PrepareToModify(h, newRep);
      SetAt(h, a, url, payload);
    }

    /** The second half of `SetPayload`, on a rep that `h` alone holds. */
    method SetAt(h: Handle, a: Address, url: string, payload: string)
      requires Inv(reps, handles, {a}) && h in handles && handles[h] == Pointer(a) && a in reps && reps[a].refs == 1
      modifies this
      ensures Valid()
      ensures var v := old(All())[h]; All() == old(All())[h := v.(payloads := v.payloads[url := payload])]
    {
      hide PayloadMap, UniqueUrls, Holders;
      var rep := reps[a];
      var ps := SetIn(PayloadsOf(rep), url, payload);
      rep := rep.(payloads := Some(ps));
      WriteKeepsInv(reps, handles, h, a, rep);
      reps := reps[a := rep];
      SealKeepsInv(reps, handles, a);
    }

    /** Whether the payload was there. */
    method ErasePayload(h: Handle, url: string, newRep: Address) returns (erased: bool)
      requires Valid() && h in handles && newRep % 2 == 0 && newRep !in reps
      modifies this
      ensures Valid() && (erased <==> url in old(All())[h].payloads)
      ensures var v := old(All())[h];
              All() == if erased then old(All())[h := v.(payloads := v.payloads - {url})] else old(All())
    {
      hide PayloadMap, UniqueUrls, Holders, Inv;
      assert h in All();
      var index := FindPayloadIndexByUrl(GetPayloads(handles[h]), url);
      PayloadMapKeys(if GetPayloads(handles[h]).Some? then GetPayloads(handles[h]).value else [], url);
      if index == -1 {
        return false;
      }
      ghost var v := All()[h];
      assert !v.movedFrom;
      var a := PrepareToModify(h, newRep);
      assert All()[h] == RepValue(reps[a]);
      EraseAt(h, a, url, v);
      return true;
    }

    /** The second half of `ErasePayload`, on a rep that `h` alone holds. */
    method EraseAt(h: Handle, a: Address, url: string, ghost v: Value)
      requires Inv(reps, handles, {a}) && h in handles && handles[h] == Pointer(a) && a in reps && reps[a].refs == 1
      requires v == RepValue(reps[a]) && url in v.payloads
      modifies this
      ensures Valid() && All() == old(All())[h := v.(payloads := v.payloads - {url})]
    {
      hide PayloadMap, UniqueUrls, Holders;
      var rep := reps[a];
      var ps := EraseIn(PayloadsOf(rep), url);
      rep := rep.(payloads := Some(ps));
      WriteKeepsInv(reps, handles, h, a, rep);
      reps := reps[a := rep];
      if ps == [] && rep.message == "" {
        InlineKeepsInv(reps, handles, h, a);
        Unref(handles[h]);
        handles := handles[h := Inlined(rep.code, false)];
      } else {
        SealKeepsInv(reps, handles, a);
      }
    }

    function GetPayloads(w: Word): Option<seq<Payload>>
      requires Points(reps, w)
      reads this
    {
      if w.Inlined? then None else reps[w.address].payloads
    }

    function Message(w: Word): (message: string)
      requires Points(reps, w)
      reads this
      ensures message == ValueOf(reps, w).message
    {
      if w.Pointer? then reps[w.address].message else if w.movedFrom then MOVED_FROM_MESSAGE else ""
    }

    function RawCode(w: Word): (code: nat)
      requires Points(reps, w)
      reads this
      ensures code == ValueOf(reps, w).code
    {
      if w.Inlined? then w.code else reps[w.address].code
    }

    /** `operator==`. */
    method Equals(x: Handle, y: Handle) returns (equal: bool)
      requires Valid() && x in handles && y in handles
      ensures equal <==> All()[x] == All()[y]
    {
      hide Holders;
      if handles[x] == handles[y] {
        return true;
      }
      equal := EqualsSlow(handles[x], handles[y]);
    }

    method EqualsSlow(v: Word, w: Word) returns (equal: bool)
      requires Valid() && v != w && v in handles.Values && w in handles.Values
      ensures Points(reps, v) && Points(reps, w)
      ensures equal <==> ValueOf(reps, v) == ValueOf(reps, w)
    {
      hide Holders;
      if v.Inlined? != w.Inlined? {
        EmptyMapOnlyIfEmpty(if v.Pointer? then PayloadsOf(reps[v.address]) else PayloadsOf(reps[w.address]));
        return false;
      }
      if Message(v) != Message(w) || RawCode(v) != RawCode(w) {
        return false;
      }
      // Two different words point to different vectors, unless both point to none.
      if GetPayloads(v) == None && GetPayloads(w) == None {
        return true;
      }
      equal := SamePayloads(PayloadsOf(reps[v.address]), PayloadsOf(reps[w.address]));
    }
  }

  method SetIn(ps: seq<Payload>, url: string, payload: string) returns (ps': seq<Payload>)
    requires UniqueUrls(ps)
    ensures UniqueUrls(ps') && ps' != [] && PayloadMap(ps') == PayloadMap(ps)[url := payload]
  {
    var index := FindPayloadIndexByUrl(Some(ps), url);
    if index != -1 {
      PayloadMapReplaced(ps, index, payload);
      return ps[index := ps[index].(payload := payload)];
    }
    PayloadMapAppended(ps, Payload(url, payload));
    return ps + [Payload(url, payload)];
  }

  method EraseIn(ps: seq<Payload>, url: string) returns (ps': seq<Payload>)
    requires UniqueUrls(ps) && url in PayloadMap(ps)
    ensures UniqueUrls(ps') && PayloadMap(ps') == PayloadMap(ps) - {url}
  {
    PayloadMapKeys(ps, url);
    var index := FindPayloadIndexByUrl(Some(ps), url);
    PayloadMapErased(ps, index);
    return Without(ps, index);
  }

  lemma EmptyRepValue(rep: Rep)
    requires rep.message == "" && PayloadsOf(rep) == []
    ensures RepValue(rep) == InlinedValue(rep.code, false)
  {
  }

  /** A rep that has lost its last payload, and has no message, gives way to a bare code. */
  lemma InlineKeepsInv(reps: map<Address, Rep>, handles: map<Handle, Word>, h: Handle, a: Address)
    requires a in reps && Inv(reps, handles, {a}) && h in handles && handles[h] == Pointer(a)
    requires reps[a].refs == 1 && reps[a].message == "" && PayloadsOf(reps[a]) == []
    ensures var reps', handles' := UnrefRep(reps, Pointer(a)), handles[h := Inlined(reps[a].code, false)];
            Inv(reps', handles', {}) && Values(reps', handles') == Values(reps, handles)[h := RepValue(reps[a])]
  {
    var w := Inlined(reps[a].code, false);
    hide RepOk, Holders, RepValue;
    assert (handles - {h})[h := w] == handles[h := w];
    assert UnrefRep(reps, Pointer(a)) == reps - {a};
    DropKeepsInv(reps, handles, h, {a});
    ShareKeepsInv(reps - {a}, handles - {h}, h, w, {a});
    SealKeepsInv(reps - {a}, handles[h := w], a);
    EmptyRepValue(reps[a]);
    var vs, v := Values(reps, handles), RepValue(reps[a]);
    assert (vs - {h})[h := v] == vs[h := v];
  }

  lemma EmptyMapOnlyIfEmpty(ps: seq<Payload>)
    ensures ps != [] ==> PayloadMap(ps) != map[]
  {
    if ps != [] {
      assert ps[|ps| - 1].typeUrl in PayloadMap(ps);
    }
  }

  lemma {:induction false} PayloadMapSize(ps: seq<Payload>)
    requires UniqueUrls(ps)
    ensures |PayloadMap(ps)| == |ps|
  {
    if ps != [] {
      var front, last := ps[..|ps| - 1], ps[|ps| - 1];
      PayloadMapSize(front);
      PayloadMapKeys(front, last.typeUrl);
      assert PayloadMap(ps).Keys == PayloadMap(front).Keys + {last.typeUrl};
    }
  }

  /** The order of the payloads does not matter; only sizes at most one apart are
      compared element by element. */
  method SamePayloads(a: seq<Payload>, b: seq<Payload>) returns (same: bool)
    requires UniqueUrls(a) && UniqueUrls(b)
    ensures same <==> PayloadMap(a) == PayloadMap(b)
  {
    var larger, smaller := a, b;
    if |larger| < |smaller| {
      larger, smaller := smaller, larger;
    }
    PayloadMapSize(a);
    PayloadMapSize(b);
    if |larger| - |smaller| > 1 {
      return false;
    }
    same := AllFound(larger, smaller);
    if same {
      FoundMeansEqual(larger, smaller);
    } else if PayloadMap(larger) == PayloadMap(smaller) {
      forall i | 0 <= i < |larger|
        ensures FoundIn(larger[i], smaller)
      {
        PayloadMapAt(larger, i);
      }
    }
  }

  predicate FoundIn(p: Payload, ps: seq<Payload>) {
    p.typeUrl in PayloadMap(ps) && PayloadMap(ps)[p.typeUrl] == p.payload
  }

  method AllFound(larger: seq<Payload>, smaller: seq<Payload>) returns (all: bool)
    requires UniqueUrls(smaller)
    ensures all <==> forall i :: 0 <= i < |larger| ==> FoundIn(larger[i], smaller)
  {
    for i := 0 to |larger|
      invariant forall k :: 0 <= k < i ==> FoundIn(larger[k], smaller)
    {
      var found := false;
      PayloadMapKeys(smaller, larger[i].typeUrl);
      for j := 0 to |smaller|
        invariant !found && forall k :: 0 <= k < j ==> smaller[k].typeUrl != larger[i].typeUrl
      {
        if larger[i].typeUrl == smaller[j].typeUrl {
          PayloadMapAt(smaller, j);
          if larger[i].payload != smaller[j].payload {
            return false;
          }
          found := true;
          break;
        }
      }
      if !found {
        return false;
      }
    }
    return true;
  }

  /** Pigeonhole: as many distinct urls, all of them found, leave none over. */
  lemma FoundMeansEqual(larger: seq<Payload>, smaller: seq<Payload>)
    requires UniqueUrls(larger) && UniqueUrls(smaller) && |larger| >= |smaller|
    requires forall i :: 0 <= i < |larger| ==> FoundIn(larger[i], smaller)
    ensures PayloadMap(larger) == PayloadMap(smaller)
  {
    var l, s := PayloadMap(larger), PayloadMap(smaller);
    PayloadMapSize(larger);
    PayloadMapSize(smaller);
    forall u | u in l
      ensures u in s && s[u] == l[u]
    {
      PayloadMapKeys(larger, u);
      var i :| 0 <= i < |larger| && larger[i].typeUrl == u;
      PayloadMapAt(larger, i);
    }
    SubsetOfSameSize(l.Keys, s.Keys);
  }

  lemma {:induction false} SubsetOfSameSize<T>(a: set<T>, b: set<T>)
    requires a <= b && |a| >= |b|
    ensures a == b
  {
    if a != {} {
      var x :| x in a;
      SubsetOfSameSize(a - {x}, b - {x});
    }
  }

  /** What a caller can see of a status. */
  function Visible(v: Value): (nat, string, map<string, string>) {
    (v.code, v.message, v.payloads)
  }

  /** Equal values look the same; values that look the same are equal, except that
      a moved-from status can be imitated. */
  lemma VisibleEquality(reps: map<Address, Rep>, handles: map<Handle, Word>, x: Handle, y: Handle)
    requires Inv(reps, handles, {}) && x in handles && y in handles
    ensures var v, w := ValueOf(reps, handles[x]), ValueOf(reps, handles[y]);
            (v == w <==> Visible(v) == Visible(w)) <==>
            !(v.movedFrom != w.movedFrom && Visible(v) == Visible(w) == (KINTERNAL, MOVED_FROM_MESSAGE, map[]))
  {
    hide Holders;
  }

  /** The exception does arise: a status that has been moved from, and one built with
      the code and the message that it shows, look the same and compare different. */
  method MovedFromImitated() returns (heap: StatusHeap, equal: bool)
    ensures fresh(heap) && heap.Valid() && 0 in heap.handles && 2 in heap.handles
    ensures Visible(heap.All()[0]) == Visible(heap.All()[2]) && !equal
  {
    hide StatusHeap.Valid;
    heap := new StatusHeap();
    heap.Construct(0, KOK, "", 0);
    heap.MoveConstruct(1, 0);
    heap.Construct(2, KINTERNAL, MOVED_FROM_MESSAGE, 0);
    equal := heap.Equals(0, 2);
  }
}
