/**
  `ArenaString`: a pointer to a string with its ownership in the two low bits. Memory is
  explicit: which strings are live, which belong to the heap or to an arena, and the history
  of `new` and `delete`.
*/
module ArenaStrings {
  import opened Bits
  import opened Varint
  import Schema
  import Codec

  // ---- memory -------------------------------------------------------------------------------------------

  /** Live strings by address, who owns them, and every `new` and `delete` of a heap string so far. */
  datatype Memory = Memory(
    text: map<nat, seq<byte>>, next: nat, heap: set<nat>, arena: set<nat>, news: seq<nat>, deletes: seq<nat>)

  /** The address of the shared empty string. */
  const DEFAULT: nat := 4

  ghost predicate MemoryOk(m: Memory)
  {
    && DEFAULT in m.text && m.text[DEFAULT] == [] && DEFAULT !in m.heap && DEFAULT !in m.arena
    && m.next > DEFAULT && m.next % 4 == 0
    && m.heap !! m.arena && m.heap <= m.text.Keys && m.arena <= m.text.Keys
    && (forall a :: a in m.text ==> a < m.next && a % 4 == 0)
    && (forall a :: a in m.news ==> a < m.next)
    && (forall a :: multiset(m.news)[a] == multiset(m.deletes)[a] + (if a in m.heap then 1 else 0))
    && (forall a :: multiset(m.news)[a] <= 1)
  }

  /** `AllocateString`: an empty string, on the arena if there is one and the build supports arenas. */
  function Allocate(m: Memory, onArena: bool): Memory
  {
    var m := m.(text := m.text[m.next := []], next := m.next + 4);
    if onArena then m.(arena := m.arena + {m.next - 4})
    else m.(heap := m.heap + {m.next - 4}, news := m.news + [m.next - 4])
  }

  function Delete(m: Memory, a: nat): Memory
  {
    m.(text := m.text - {a}, heap := m.heap - {a}, deletes := m.deletes + [a])
  }

  function Assign(m: Memory, a: nat, value: seq<byte>): Memory
  {
    m.(text := m.text[a := value])
  }

  lemma AllocateOk(m: Memory, onArena: bool)
    requires MemoryOk(m)
    ensures MemoryOk(Allocate(m, onArena))
  {
    var m' := Allocate(m, onArena);
    assert m.next !in m.news;
    assert multiset(m.news)[m.next] == 0;
    assert multiset(m'.news) == if onArena then multiset(m.news) else multiset(m.news) + multiset{m.next};
  }

  lemma DeleteOk(m: Memory, a: nat)
    requires MemoryOk(m) && a in m.heap
    ensures MemoryOk(Delete(m, a))
  {
    assert multiset(Delete(m, a).deletes) == multiset(m.deletes) + multiset{a};
  }

  lemma AssignOk(m: Memory, a: nat, value: seq<byte>)
    requires MemoryOk(m) && a in m.text && a != DEFAULT
    ensures MemoryOk(Assign(m, a, value))
  {
    assert Assign(m, a, value).text.Keys == m.text.Keys;
  }

  // ---- the tagged pointer -----------------------------------------------------------------------------------

  const K_DEFAULT: nat := 0
  const K_FIXED_SIZE_ARENA: nat := 1
  const K_ALLOCATED: nat := 2
  const K_MUTABLE_ARENA: nat := 3

  function EncodeTag(ptr: nat, kind: nat): nat
  {
    BitOr(ptr, kind)
  }

  /** `tagged & ~kMask` */
  function DecodePtr(tagged: nat): nat
  {
    tagged - tagged % 4
  }

  /** `tagged & kMask` */
  function DecodeType(tagged: nat): nat
  {
    tagged % 4
  }

  lemma OrLowBits(q: nat, kind: nat)
    requires kind < 4
    ensures BitOr(q * 4, kind) == q * 4 + kind
  {
    assert Pow2(2) == 4;
    OrDisjointLeft(q, 2, kind);
  }

  /** A pointer and a type survive tagging exactly when the pointer is 4-aligned. */
  lemma TagRoundTrips(ptr: nat, kind: nat)
    requires kind < 4
    ensures DecodePtr(EncodeTag(ptr, kind)) == ptr && DecodeType(EncodeTag(ptr, kind)) == kind <==> ptr % 4 == 0
  {
    hide BitOr;
    if ptr % 4 == 0 {
      OrLowBits(ptr / 4, kind);
      assert EncodeTag(ptr, kind) == ptr + kind;
    } else {
      assert DecodePtr(EncodeTag(ptr, kind)) % 4 == 0;
    }
  }

  // ---- the operations ------------------------------------------------------------------------------------------

  /** An `ArenaString` and the memory around it. `arenas` says whether the build has arena support. */
  datatype Place = Place(tagged: nat, memory: Memory)

  function PtrOf(s: Place): nat
  {
    DecodePtr(s.tagged)
  }

  function TypeOf(s: Place): nat
  {
    DecodeType(s.tagged)
  }

  /** `Get`. */
  function Content(s: Place): seq<byte>
  {
    if PtrOf(s) in s.memory.text then s.memory.text[PtrOf(s)] else []
  }

  /** The member as the codec sees it. */
  function AsCell(s: Place): Schema.Cell
  {
    Schema.Str(TypeOf(s) == K_DEFAULT, Content(s))
  }

  function SetTagged(s: Place, ptr: nat, kind: nat): Place
  {
    if ptr == PtrOf(s) && kind == TypeOf(s) then s
    else Place(EncodeTag(ptr, kind), if TypeOf(s) == K_ALLOCATED then Delete(s.memory, PtrOf(s)) else s.memory)
  }

  /** `Mutable` when a new string is needed, filled with `init`. */
  function Adopt(s: Place, onArena: bool, init: seq<byte>): Place
  {
    var ptr := s.memory.next;
    SetTagged(s.(memory := Assign(Allocate(s.memory, onArena), ptr, init)), ptr, if onArena then K_MUTABLE_ARENA else K_ALLOCATED)
  }

  function Mutable(s: Place, onArena: bool): Place
  {
    if TypeOf(s) == K_ALLOCATED || TypeOf(s) == K_MUTABLE_ARENA then s
    else if TypeOf(s) == K_DEFAULT then Adopt(s, onArena, [])
    else Adopt(s, onArena, Content(s))
  }

  function Set(s: Place, value: seq<byte>, onArena: bool): Place
  {
    if value == [] && TypeOf(s) == K_DEFAULT then s
    else
      var s := Mutable(s, onArena);
      s.(memory := Assign(s.memory, PtrOf(s), value))
  }

  function SetDefault(s: Place): Place
  {
    s.(tagged := EncodeTag(DEFAULT, K_DEFAULT))
  }

  function Clear(s: Place): Place
  {
    if TypeOf(s) == K_DEFAULT then s
    else if TypeOf(s) == K_ALLOCATED then SetDefault(s.(memory := Delete(s.memory, PtrOf(s))))
    else SetDefault(s)
  }

  function Destroy(s: Place): Place
  {
    SetDefault(if TypeOf(s) == K_ALLOCATED then s.(memory := Delete(s.memory, PtrOf(s))) else s)
  }

  /** The constructors: on an arena the string is allocated at once. */
  function Construct(m: Memory, withArena: bool, arenas: bool): Place
  {
    var s := Place(EncodeTag(DEFAULT, K_DEFAULT), m);
    if withArena then Adopt(s, arenas, []) else s
  }

  // ---- one string ----------------------------------------------------------------------------------------------

  /** The pointer is live, and of the kind its tag says. */
  ghost predicate PlaceOk(s: Place)
  {
    && MemoryOk(s.memory) && PtrOf(s) in s.memory.text
    && (TypeOf(s) == K_DEFAULT <==> PtrOf(s) == DEFAULT)
    && (TypeOf(s) == K_ALLOCATED ==> PtrOf(s) in s.memory.heap)
    && (TypeOf(s) == K_MUTABLE_ARENA || TypeOf(s) == K_FIXED_SIZE_ARENA ==> PtrOf(s) in s.memory.arena)
  }

  /** The heap string this one is responsible for. */
  function Owned(s: Place): set<nat>
  {
    if TypeOf(s) == K_ALLOCATED then {PtrOf(s)} else {}
  }

  /**
    What an operation may do to the memory: exchange its own heap string for another of its
    own, and change nothing else that was live.
  */
  ghost predicate Effect(s: Place, s': Place)
  {
    && s.memory.next <= s'.memory.next
    && s'.memory.heap == s.memory.heap - Owned(s) + Owned(s')
    && s.memory.arena <= s'.memory.arena
    && (PtrOf(s') == PtrOf(s) || PtrOf(s') == DEFAULT || PtrOf(s') >= s.memory.next)
    && (forall a :: a in s.memory.text && a != PtrOf(s) ==> a in s'.memory.text && s'.memory.text[a] == s.memory.text[a])
  }

  /**
    Where a string asked to be mutable is stored: one that is already allocated stays where it
    is; any other gets one new string, on the arena if there is one to use and else on the heap.
  */
  ghost predicate Stored(s: Place, s': Place, onArena: bool)
  {
    var m, m' := s.memory, s'.memory;
    if TypeOf(s) == K_ALLOCATED || TypeOf(s) == K_MUTABLE_ARENA then
      s'.tagged == s.tagged && m' == m.(text := m'.text)
    else
      && PtrOf(s') == m.next && m'.deletes == m.deletes
      && if onArena then TypeOf(s') == K_MUTABLE_ARENA && m'.arena == m.arena + {m.next} && m'.heap == m.heap && m'.news == m.news
         else TypeOf(s') == K_ALLOCATED && m'.arena == m.arena && m'.heap == m.heap + {m.next} && m'.news == m.news + [m.next]
  }

  lemma EffectTrans(s: Place, s': Place, s'': Place)
    requires PlaceOk(s) && PlaceOk(s') && PlaceOk(s'') && Effect(s, s') && Effect(s', s'')
    ensures Effect(s, s'')
  {
    assert Owned(s') !! (s.memory.heap - Owned(s));
    forall a | a in s.memory.text && a != PtrOf(s)
      ensures a in s''.memory.text && s''.memory.text[a] == s.memory.text[a]
    {
      if a == PtrOf(s') { assert a == DEFAULT; }
    }
  }

  lemma AssignKeeps(s: Place, value: seq<byte>)
    requires PlaceOk(s) && TypeOf(s) != K_DEFAULT
    ensures var s' := s.(memory := Assign(s.memory, PtrOf(s), value));
            PlaceOk(s') && Effect(s, s') && AsCell(s') == Schema.Str(false, value)
  {
    AssignOk(s.memory, PtrOf(s), value);
  }

  lemma NextIsFresh(m: Memory)
    requires MemoryOk(m)
    ensures m.next % 4 == 0 && m.next > DEFAULT && m.next !in m.text && m.next !in m.heap && m.next !in m.arena
  {
  }

  lemma AdoptOk(s: Place, onArena: bool, init: seq<byte>)
    requires PlaceOk(s) && TypeOf(s) != K_ALLOCATED
    ensures var s' := Adopt(s, onArena, init);
            && PlaceOk(s') && Effect(s, s') && AsCell(s') == Schema.Str(false, init)
  {
    hide EncodeTag, MemoryOk;
    MemoryBounds(s.memory);
    var ptr := s.memory.next;
    NextIsFresh(s.memory);
    AllocateOk(s.memory, onArena);
    AssignOk(Allocate(s.memory, onArena), ptr, init);
    TagRoundTrips(ptr, if onArena then K_MUTABLE_ARENA else K_ALLOCATED);
  }

  lemma AdoptStored(s: Place, onArena: bool, init: seq<byte>)
    requires PlaceOk(s) && TypeOf(s) != K_ALLOCATED && TypeOf(s) != K_MUTABLE_ARENA
    ensures Stored(s, Adopt(s, onArena, init), onArena)
  {
    hide EncodeTag, MemoryOk;
    NextIsFresh(s.memory);
    TagRoundTrips(s.memory.next, if onArena then K_MUTABLE_ARENA else K_ALLOCATED);
  }

  lemma DefaultTag(s: Place)
    ensures PtrOf(SetDefault(s)) == DEFAULT && TypeOf(SetDefault(s)) == K_DEFAULT && SetDefault(s).memory == s.memory
  {
    TagRoundTrips(DEFAULT, K_DEFAULT);
  }

  lemma DefaultIsEmpty(s: Place)
    requires PlaceOk(s) && TypeOf(s) == K_DEFAULT
    ensures Content(s) == []
  {
  }

  /** `SetTagged`: the same pointer and type are left alone; otherwise both are replaced, and an owned string is freed first. */
  lemma SetTaggedExactly(s: Place, ptr: nat, kind: nat)
    requires kind < 4 && ptr % 4 == 0
    ensures var s' := SetTagged(s, ptr, kind);
            && PtrOf(s') == ptr && TypeOf(s') == kind
            && s'.memory.news == s.memory.news && s'.memory.arena == s.memory.arena
            && if (ptr, kind) == (PtrOf(s), TypeOf(s)) then s' == s
               else s'.memory.heap == s.memory.heap - Owned(s)
                    && s'.memory.deletes == s.memory.deletes + (if TypeOf(s) == K_ALLOCATED then [PtrOf(s)] else [])
  {
    hide EncodeTag;
    TagRoundTrips(ptr, kind);
  }

  /** Each operation keeps the string sound, touches nothing else, and acts on the content as the codec's member does. */
  lemma MutableOk(s: Place, onArena: bool)
    requires PlaceOk(s)
    ensures var s' := Mutable(s, onArena);
            PlaceOk(s') && Effect(s, s') && AsCell(s') == Schema.Str(false, Content(s)) && Stored(s, s', onArena)
  {
    hide EncodeTag, Adopt, MemoryOk;
    if TypeOf(s) == K_DEFAULT {
      DefaultIsEmpty(s);
      AdoptOk(s, onArena, []);
      AdoptStored(s, onArena, []);
    } else if TypeOf(s) == K_FIXED_SIZE_ARENA {
      AdoptOk(s, onArena, Content(s));
      AdoptStored(s, onArena, Content(s));
    }
  }

  lemma SetOk(s: Place, value: seq<byte>, onArena: bool)
    requires PlaceOk(s)
    ensures PlaceOk(Set(s, value, onArena)) && Effect(s, Set(s, value, onArena))
    ensures AsCell(Set(s, value, onArena)) == Codec.SetStr(AsCell(s), value)
    ensures if value == [] && TypeOf(s) == K_DEFAULT then Set(s, value, onArena) == s
            else Stored(s, Set(s, value, onArena), onArena)
  {
    hide EncodeTag, Mutable, MemoryOk, Effect;
    if value == [] && TypeOf(s) == K_DEFAULT {
      DefaultIsEmpty(s);
      EffectRefl(s);
    } else {
      EditOk(s, value, onArena);
    }
  }

  lemma EffectRefl(s: Place)
    requires PlaceOk(s)
    ensures Effect(s, s)
  {
    assert s.memory.heap - Owned(s) + Owned(s) == s.memory.heap;
  }

  /** `*Mutable(arena) = value`. */
  function Edit(s: Place, value: seq<byte>, onArena: bool): Place
  {
    var s := Mutable(s, onArena);
    s.(memory := Assign(s.memory, PtrOf(s), value))
  }

  lemma EditOk(s: Place, value: seq<byte>, onArena: bool)
    requires PlaceOk(s)
    ensures PlaceOk(Edit(s, value, onArena)) && Effect(s, Edit(s, value, onArena))
    ensures AsCell(Edit(s, value, onArena)) == Schema.Str(false, value) && Stored(s, Edit(s, value, onArena), onArena)
  {
    hide EncodeTag, Mutable, MemoryOk, Effect;
    MutableOk(s, onArena);
    AssignKeeps(Mutable(s, onArena), value);
    EffectTrans(s, Mutable(s, onArena), Edit(s, value, onArena));
  }

  lemma DestroyOk(s: Place)
    requires PlaceOk(s)
    ensures PlaceOk(Destroy(s)) && Effect(s, Destroy(s)) && AsCell(Destroy(s)) == Schema.Str(true, [])
    ensures Owned(Destroy(s)) == {}
  {
    hide EncodeTag;
    DefaultTag(s);
    if TypeOf(s) == K_ALLOCATED {
      DeleteOk(s.memory, PtrOf(s));
      DefaultTag(s.(memory := Delete(s.memory, PtrOf(s))));
    }
  }

  lemma ClearOk(s: Place)
    requires PlaceOk(s)
    ensures PlaceOk(Clear(s)) && Effect(s, Clear(s)) && AsCell(Clear(s)) == Schema.Str(true, [])
  {
    hide EncodeTag, MemoryOk, Effect;
    if TypeOf(s) == K_DEFAULT {
      DefaultIsEmpty(s);
      EffectRefl(s);
    } else {
      DestroyOk(s);
    }
  }

  /** The type a constructor leaves: without the arena library a string meant for an arena is on the heap. */
  function TypeBorn(withArena: bool, arenas: bool): nat
  {
    if !withArena then K_DEFAULT else if arenas then K_MUTABLE_ARENA else K_ALLOCATED
  }

  lemma ConstructOk(m: Memory, withArena: bool, arenas: bool)
    requires MemoryOk(m)
    ensures var s := Construct(m, withArena, arenas);
            && PlaceOk(s) && Content(s) == []
            && TypeOf(s) == TypeBorn(withArena, arenas)
            && (withArena && !arenas ==> s.memory.news == m.news + [PtrOf(s)])
            && (!withArena || arenas ==> s.memory.heap == m.heap && s.memory.news == m.news)
            && PtrOf(Place(EncodeTag(DEFAULT, K_DEFAULT), m)) == DEFAULT && Effect(Place(EncodeTag(DEFAULT, K_DEFAULT), m), s)
            && PlaceOk(Place(EncodeTag(DEFAULT, K_DEFAULT), m))
  {
    hide EncodeTag, Adopt;
    var s := Place(EncodeTag(DEFAULT, K_DEFAULT), m);
    TagRoundTrips(DEFAULT, K_DEFAULT);
    if withArena {
      AdoptOk(s, arenas, []);
      AdoptStored(s, arenas, []);
    }
  }

  /** What the code does where its tests expect otherwise: an empty `Set` leaves the default flag, an arena constructor clears it. */
  lemma DefaultFlag(m: Memory, arenas: bool, onArena: bool)
    requires MemoryOk(m)
    ensures TypeOf(Set(Construct(m, false, arenas), [], onArena)) == K_DEFAULT
    ensures TypeOf(Construct(m, true, arenas)) != K_DEFAULT
  {
    hide Adopt;
    ConstructOk(m, false, arenas);
    ConstructOk(m, true, arenas);
  }

  // ---- many strings over one memory ----------------------------------------------------------------------------

  /** What a client does with a string, passing an arena or none. */
  datatype Op = OpSet(value: seq<byte>, withArena: bool) | OpEdit(value: seq<byte>, withArena: bool) | OpClear | OpDestroy

  function Step(s: Place, op: Op, arenas: bool): Place
  {
    match op
    case OpSet(value, withArena) => Set(s, value, withArena && arenas)
    case OpEdit(value, withArena) => Edit(s, value, withArena && arenas)
    case OpClear => Clear(s)
    case OpDestroy => Destroy(s)
  }

  /** What a plain string variable would hold after the operation. */
  function TextAfter(op: Op): seq<byte>
  {
    match op
    case OpSet(value, _) => value
    case OpEdit(value, _) => value
    case _ => []
  }

  /** The type after the operation, from the type before it alone. */
  function TypeAfter(kind: nat, op: Op, arenas: bool): nat
  {
    match op
    case OpSet(value, withArena) =>
      if value == [] && kind == K_DEFAULT then K_DEFAULT else TypeStored(kind, withArena && arenas)
    case OpEdit(_, withArena) => TypeStored(kind, withArena && arenas)
    case _ => K_DEFAULT
  }

  function TypeStored(kind: nat, onArena: bool): nat
  {
    if kind == K_ALLOCATED || kind == K_MUTABLE_ARENA then kind
    else if onArena then K_MUTABLE_ARENA else K_ALLOCATED
  }

  lemma StepOk(s: Place, op: Op, arenas: bool)
    requires PlaceOk(s)
    ensures var s' := Step(s, op, arenas);
            && PlaceOk(s') && Effect(s, s') && Content(s') == TextAfter(op)
            && TypeOf(s') == TypeAfter(TypeOf(s), op, arenas)
    ensures op.OpDestroy? ==> Owned(Step(s, op, arenas)) == {}
  {
    hide Set, Edit, Clear, Destroy, EncodeTag, MemoryOk, Effect;
    match op
    case OpSet(value, withArena) => SetOk(s, value, withArena && arenas);
    case OpEdit(value, withArena) => EditOk(s, value, withArena && arenas);
    case OpClear => ClearOk(s);
    case OpDestroy => DestroyOk(s);
  }

  /** All the strings of a program. */
  datatype World = World(tags: seq<nat>, memory: Memory)

  function Nth(w: World, i: nat): Place
    requires i < |w.tags|
  {
    Place(w.tags[i], w.memory)
  }

  /**
    Every string is sound, no two share storage, the heap holds what it held at the start plus
    exactly the strings of type kAllocated, and what was live at the start is unchanged.
  */
  ghost predicate WorldOk(w: World, base: Memory)
  {
    && MemoryOk(base) && MemoryOk(w.memory) && base.next <= w.memory.next
    && (forall i :: 0 <= i < |w.tags| ==> PlaceOk(Nth(w, i)))
    && (forall i :: 0 <= i < |w.tags| ==> PtrOf(Nth(w, i)) == DEFAULT || PtrOf(Nth(w, i)) >= base.next)
    && (forall i, j :: 0 <= i < j < |w.tags| ==> PtrOf(Nth(w, i)) != PtrOf(Nth(w, j)) || PtrOf(Nth(w, i)) == DEFAULT)
    && (forall a :: a in w.memory.heap <==> a in base.heap || exists i :: 0 <= i < |w.tags| && a in Owned(Nth(w, i)))
    && (forall a :: a in base.text ==> a in w.memory.text && w.memory.text[a] == base.text[a])
  }

  function WorldStep(w: World, i: nat, op: Op, arenas: bool): World
    requires i < |w.tags|
  {
    var s := Step(Nth(w, i), op, arenas);
    World(w.tags[i := s.tagged], s.memory)
  }

  /** Replacing string `i` by one that an operation may produce from it. */
  lemma Replaced(w: World, base: Memory, i: nat, s': Place)
    requires WorldOk(w, base) && i < |w.tags| && PlaceOk(s') && Effect(Nth(w, i), s')
    ensures WorldOk(World(w.tags[i := s'.tagged], s'.memory), base)
    ensures forall j :: 0 <= j < |w.tags| && j != i ==>
              Content(Place(w.tags[j], s'.memory)) == Content(Nth(w, j)) && TypeOf(Place(w.tags[j], s'.memory)) == TypeOf(Nth(w, j))
  {
    hide MemoryOk, EncodeTag, PlaceOk, Effect, Content;
    var w' := World(w.tags[i := s'.tagged], s'.memory);
    BaseStays(w, base, i, s');
    forall j | 0 <= j < |w.tags| && j != i
      ensures PlaceOk(Nth(w', j)) && PtrOf(Nth(w', j)) == PtrOf(Nth(w, j)) && Owned(Nth(w', j)) == Owned(Nth(w, j))
      ensures Content(Nth(w', j)) == Content(Nth(w, j))
      ensures PtrOf(Nth(w', j)) != PtrOf(s') || PtrOf(s') == DEFAULT
    {
      OtherStays(w, base, i, s', j);
    }
    HeapStays(w, base, i, s');
  }

  lemma BaseStays(w: World, base: Memory, i: nat, s': Place)
    requires WorldOk(w, base) && i < |w.tags| && PlaceOk(s') && Effect(Nth(w, i), s')
    ensures MemoryOk(s'.memory) && base.next <= s'.memory.next
    ensures PtrOf(s') == DEFAULT || PtrOf(s') >= base.next
    ensures forall a :: a in base.text ==> a in s'.memory.text && s'.memory.text[a] == base.text[a]
  {
    hide MemoryOk, EncodeTag;
    MemoryBounds(s'.memory);
    MemoryBounds(base);
    assert PlaceOk(Nth(w, i));
  }

  lemma MemoryBounds(m: Memory)
    requires MemoryOk(m)
    ensures DEFAULT in m.text && m.text[DEFAULT] == [] && DEFAULT < m.next && DEFAULT !in m.heap
    ensures forall a :: a in m.text ==> a < m.next
    ensures m.heap <= m.text.Keys && m.arena <= m.text.Keys && m.heap !! m.arena
  {
  }

  lemma OtherStays(w: World, base: Memory, i: nat, s': Place, j: nat)
    requires WorldOk(w, base) && i < |w.tags| && PlaceOk(s') && Effect(Nth(w, i), s')
    requires j < |w.tags| && j != i
    ensures PlaceOk(Place(w.tags[j], s'.memory))
    ensures Content(Place(w.tags[j], s'.memory)) == Content(Nth(w, j))
    ensures PtrOf(Nth(w, j)) != PtrOf(s') || PtrOf(s') == DEFAULT
  {
    hide MemoryOk, EncodeTag;
    MemoryBounds(w.memory);
    MemoryBounds(s'.memory);
    assert PlaceOk(Nth(w, j)) && PlaceOk(Nth(w, i));
  }

  lemma HeapStays(w: World, base: Memory, i: nat, s': Place)
    requires WorldOk(w, base) && i < |w.tags| && PlaceOk(s') && Effect(Nth(w, i), s')
    ensures var w' := World(w.tags[i := s'.tagged], s'.memory);
            forall a :: a in s'.memory.heap <==> a in base.heap || exists j :: 0 <= j < |w.tags| && a in Owned(Nth(w', j))
  {
    hide MemoryOk, EncodeTag;
    var w' := World(w.tags[i := s'.tagged], s'.memory);
    MemoryBounds(base);
    MemoryBounds(w.memory);
    forall j | 0 <= j < |w.tags| && j != i
      ensures Owned(Nth(w', j)) == Owned(Nth(w, j)) && Owned(Nth(w, j)) !! Owned(Nth(w, i))
    {
      assert PlaceOk(Nth(w, j)) && PlaceOk(Nth(w, i));
    }
    assert Owned(Nth(w', i)) == Owned(s');
    forall a
      ensures a in s'.memory.heap <==> a in base.heap || exists j :: 0 <= j < |w.tags| && a in Owned(Nth(w', j))
    {
      if a in s'.memory.heap && a !in base.heap && a !in Owned(s') {
        var j :| 0 <= j < |w.tags| && a in Owned(Nth(w, j));
        assert a in Owned(Nth(w', j));
      }
      if a in base.heap {
        assert a !in Owned(Nth(w, i)) by { assert PlaceOk(Nth(w, i)); }
      }
    }
  }

  /** An interleaving of operations on any of the strings. */
  function WorldRun(w: World, run: seq<(nat, Op)>, arenas: bool): World
    decreases |run|
  {
    if run == [] then w
    else
      var w := WorldRun(w, run[..|run| - 1], arenas);
      var (i, op) := run[|run| - 1];
      if i < |w.tags| then WorldStep(w, i, op, arenas) else w
  }

  /** What string variable `i` holds after the run. */
  function LastText(run: seq<(nat, Op)>, i: nat): seq<byte>
  {
    if run == [] then []
    else if run[|run| - 1].0 == i then TextAfter(run[|run| - 1].1)
    else LastText(run[..|run| - 1], i)
  }

  /** The type of string `i` after the run, from its constructor and its own operations alone. */
  function LastType(run: seq<(nat, Op)>, i: nat, withArena: bool, arenas: bool): nat
  {
    if run == [] then TypeBorn(withArena, arenas)
    else
      var kind := LastType(run[..|run| - 1], i, withArena, arenas);
      if run[|run| - 1].0 == i then TypeAfter(kind, run[|run| - 1].1, arenas) else kind
  }

  /** Contents and types are what each string's own history says. */
  ghost predicate Holds(w: World, run: seq<(nat, Op)>, withArena: seq<bool>, arenas: bool)
  {
    && |w.tags| == |withArena|
    && forall i :: 0 <= i < |w.tags| ==>
         Content(Nth(w, i)) == LastText(run, i) && TypeOf(Nth(w, i)) == LastType(run, i, withArena[i], arenas)
  }

  lemma {:induction false} WorldRunOk(w: World, base: Memory, run: seq<(nat, Op)>, withArena: seq<bool>, arenas: bool)
    requires WorldOk(w, base) && Holds(w, [], withArena, arenas)
    ensures WorldOk(WorldRun(w, run, arenas), base) && Holds(WorldRun(w, run, arenas), run, withArena, arenas)
    decreases |run|
  {
    hide WorldOk, Step, Content, MemoryOk, TypeOf, TypeAfter, TextAfter;
    if run != [] {
      var before := run[..|run| - 1];
      WorldRunOk(w, base, before, withArena, arenas);
      var w' := WorldRun(w, before, arenas);
      var (i, op) := run[|run| - 1];
      if i < |w'.tags| {
        NthOk(w', base, i);
        StepOk(Nth(w', i), op, arenas);
        Replaced(w', base, i, Step(Nth(w', i), op, arenas));
        var w'' := WorldStep(w', i, op, arenas);
        assert Nth(w'', i) == Step(Nth(w', i), op, arenas);
        forall j | 0 <= j < |w''.tags|
          ensures Content(Nth(w'', j)) == LastText(run, j) && TypeOf(Nth(w'', j)) == LastType(run, j, withArena[j], arenas)
        {
          if j != i { assert Nth(w'', j) == Place(w'.tags[j], w''.memory); }
        }
      }
    }
  }

  lemma NthOk(w: World, base: Memory, i: nat)
    requires WorldOk(w, base) && i < |w.tags|
    ensures PlaceOk(Nth(w, i))
  {
  }

  /** Strings constructed one after the other, each with or without an arena. */
  function Born(m: Memory, withArena: seq<bool>, arenas: bool): World
    decreases |withArena|
  {
    if withArena == [] then World([], m)
    else
      var w := Born(m, withArena[..|withArena| - 1], arenas);
      var s := Construct(w.memory, withArena[|withArena| - 1], arenas);
      World(w.tags + [s.tagged], s.memory)
  }

  /** One more string constructed beside those there are. */
  lemma BornOne(w: World, base: Memory, withArena: bool, arenas: bool)
    requires WorldOk(w, base)
    ensures var s := Construct(w.memory, withArena, arenas);
            var w' := World(w.tags + [s.tagged], s.memory);
            && WorldOk(w', base) && Content(s) == [] && TypeOf(s) == TypeBorn(withArena, arenas)
            && forall i :: 0 <= i < |w.tags| ==>
                 Content(Nth(w', i)) == Content(Nth(w, i)) && TypeOf(Nth(w', i)) == TypeOf(Nth(w, i))
  {
    hide MemoryOk, Construct, Content, EncodeTag, Effect, PlaceOk;
    ConstructOk(w.memory, withArena, arenas);
    var blank := Place(EncodeTag(DEFAULT, K_DEFAULT), w.memory);
    WithDefault(w, base, blank.tagged);
    var w0 := World(w.tags + [blank.tagged], w.memory);
    var s := Construct(w.memory, withArena, arenas);
    Replaced(w0, base, |w.tags|, s);
    hide WorldOk;
    var w' := World(w.tags + [s.tagged], s.memory);
    assert w0.tags[|w.tags| := s.tagged] == w'.tags;
    forall i | 0 <= i < |w.tags|
      ensures Content(Nth(w', i)) == Content(Nth(w, i)) && TypeOf(Nth(w', i)) == TypeOf(Nth(w, i))
    {
      assert Nth(w', i) == Place(w0.tags[i], s.memory) && Nth(w0, i) == Nth(w, i);
    }
  }

  lemma BornNone(m: Memory)
    requires MemoryOk(m)
    ensures WorldOk(World([], m), m)
  {
  }

  lemma {:induction false} BornOk(m: Memory, withArena: seq<bool>, arenas: bool)
    requires MemoryOk(m)
    ensures WorldOk(Born(m, withArena, arenas), m) && Holds(Born(m, withArena, arenas), [], withArena, arenas)
    decreases |withArena|
  {
    hide MemoryOk, Construct, Content, EncodeTag, TypeOf, TypeBorn, WorldOk, PlaceOk;
    if withArena == [] {
      BornNone(m);
    } else {
      var w := Born(m, withArena[..|withArena| - 1], arenas);
      BornOk(m, withArena[..|withArena| - 1], arenas);
      BornOne(w, m, withArena[|withArena| - 1], arenas);
      var w' := Born(m, withArena, arenas);
      forall i | 0 <= i < |w'.tags|
        ensures Content(Nth(w', i)) == [] && TypeOf(Nth(w', i)) == TypeBorn(withArena[i], arenas)
      {
        assert i == |w.tags| ==> Nth(w', i) == Construct(w.memory, withArena[|withArena| - 1], arenas);
      }
    }
  }

  lemma WithDefault(w: World, base: Memory, tag: nat)
    requires WorldOk(w, base) && PlaceOk(Place(tag, w.memory)) && DecodePtr(tag) == DEFAULT
    ensures WorldOk(World(w.tags + [tag], w.memory), base)
  {
    hide MemoryOk;
    var w' := World(w.tags + [tag], w.memory);
    assert forall i :: 0 <= i < |w.tags| ==> Nth(w', i) == Nth(w, i);
    assert Owned(Nth(w', |w.tags|)) == {};
    forall a
      ensures a in w'.memory.heap <==> a in base.heap || exists i :: 0 <= i < |w'.tags| && a in Owned(Nth(w', i))
    {
      if a in w'.memory.heap && a !in base.heap {
        var i :| 0 <= i < |w.tags| && a in Owned(Nth(w, i));
        assert a in Owned(Nth(w', i));
      }
    }
  }

  /** The last operation on every string was its destruction. */
  predicate AllDestroyed(run: seq<(nat, Op)>, n: nat)
  {
    forall i :: 0 <= i < n ==> DestroyedLast(run, i)
  }

  predicate DestroyedLast(run: seq<(nat, Op)>, i: nat)
  {
    run != [] && if run[|run| - 1].0 == i then run[|run| - 1].1.OpDestroy? else DestroyedLast(run[..|run| - 1], i)
  }

  lemma {:induction false} DestroyedOwnsNothing(w: World, base: Memory, run: seq<(nat, Op)>, withArena: seq<bool>, arenas: bool, i: nat)
    requires WorldOk(w, base) && Holds(w, [], withArena, arenas) && i < |w.tags| && DestroyedLast(run, i)
    ensures |WorldRun(w, run, arenas).tags| == |w.tags| && Owned(Nth(WorldRun(w, run, arenas), i)) == {}
    decreases |run|
  {
    hide WorldOk, Step, MemoryOk, Content;
    var before := run[..|run| - 1];
    WorldRunOk(w, base, before, withArena, arenas);
    WorldRunOk(w, base, run, withArena, arenas);
    var w' := WorldRun(w, before, arenas);
    var (j, op) := run[|run| - 1];
    if j == i {
      NthOk(w', base, i);
      StepOk(Nth(w', i), op, arenas);
      assert Nth(WorldStep(w', i, op, arenas), i) == Step(Nth(w', i), op, arenas);
    } else {
      DestroyedOwnsNothing(w, base, before, withArena, arenas, i);
    }
  }

  /**
    Whole lives: for any number of strings from either constructor and any interleaving of
    operations, every `Get` returns what was last stored in that string, its type is that of its
    own history, and the heap holds exactly one string for each of type kAllocated besides what it held before. Once all are
    destroyed, every heap string created meanwhile has been deleted exactly once. Strings that
    were there before are never changed or deleted.
  */
  lemma WholeLives(m: Memory, withArena: seq<bool>, arenas: bool, run: seq<(nat, Op)>)
    requires MemoryOk(m)
    ensures var w := WorldRun(Born(m, withArena, arenas), run, arenas);
            && |w.tags| == |withArena|
            && (forall i :: 0 <= i < |w.tags| ==> Content(Nth(w, i)) == LastText(run, i))
            && (forall i :: 0 <= i < |w.tags| ==> TypeOf(Nth(w, i)) == LastType(run, i, withArena[i], arenas))
            && (forall i, j :: 0 <= i < j < |w.tags| ==> Owned(Nth(w, i)) !! Owned(Nth(w, j)))
            && (forall a :: a in w.memory.heap <==> a in m.heap || exists i :: 0 <= i < |w.tags| && a in Owned(Nth(w, i)))
            && (forall a :: a in m.text ==> a in w.memory.text && w.memory.text[a] == m.text[a])
            && (AllDestroyed(run, |withArena|) ==>
                  w.memory.heap == m.heap
                  && forall a :: a !in m.heap ==> multiset(w.memory.deletes)[a] == multiset(w.memory.news)[a] <= 1)
  {
    hide WorldRun, Born, EncodeTag;
    var w0 := Born(m, withArena, arenas);
    BornOk(m, withArena, arenas);
    WorldRunOk(w0, m, run, withArena, arenas);
    var w := WorldRun(w0, run, arenas);
    if AllDestroyed(run, |withArena|) {
      forall i | 0 <= i < |w.tags|
        ensures Owned(Nth(w, i)) == {}
      {
        DestroyedOwnsNothing(w0, m, run, withArena, arenas, i);
      }
      assert w.memory.heap == m.heap;
    }
  }

  /** No constructor and no operation is given an arena the build can use. */
  predicate HeapOnly(run: seq<(nat, Op)>, withArena: seq<bool>, arenas: bool)
  {
    !arenas ||
    ((forall i :: 0 <= i < |withArena| ==> !withArena[i])
     && forall j :: 0 <= j < |run| ==> !GivesArena(run[j].1))
  }

  predicate GivesArena(op: Op)
  {
    (op.OpSet? || op.OpEdit?) && op.withArena
  }

  /** Every constructor and operation that may allocate is given one. */
  predicate ArenaOnly(run: seq<(nat, Op)>, withArena: seq<bool>, arenas: bool)
  {
    && arenas && (forall i :: 0 <= i < |withArena| ==> withArena[i])
    && forall j :: 0 <= j < |run| ==> GivesArena(run[j].1) || run[j].1.OpClear? || run[j].1.OpDestroy?
  }

  lemma {:induction false} TypeHistory(run: seq<(nat, Op)>, i: nat, withArena: bool, arenas: bool)
    ensures var kind := LastType(run, i, withArena, arenas);
            && kind in {K_DEFAULT, K_ALLOCATED, K_MUTABLE_ARENA}
            && (HeapOnly(run, [withArena], arenas) ==> kind != K_MUTABLE_ARENA)
            && (ArenaOnly(run, [withArena], arenas) ==> kind != K_ALLOCATED)
    decreases |run|
  {
    assert [withArena][0] == withArena;
    if run != [] {
      var before := run[..|run| - 1];
      TypeHistory(before, i, withArena, arenas);
      assert HeapOnly(run, [withArena], arenas) ==> HeapOnly(before, [withArena], arenas);
      assert HeapOnly(run, [withArena], arenas) && arenas ==> !GivesArena(run[|run| - 1].1);
    }
  }

  /**
    Where strings end up: no arena, or a build without them, and no string is ever of an arena
    type; always an arena, and none is ever on the heap. Fixed-size arena strings never arise.
  */
  lemma TypesOfLives(m: Memory, withArena: seq<bool>, arenas: bool, run: seq<(nat, Op)>, i: nat)
    requires MemoryOk(m) && i < |withArena|
    ensures var w := WorldRun(Born(m, withArena, arenas), run, arenas);
            && i < |w.tags| && TypeOf(Nth(w, i)) in {K_DEFAULT, K_ALLOCATED, K_MUTABLE_ARENA}
            && (HeapOnly(run, withArena, arenas) ==> TypeOf(Nth(w, i)) != K_MUTABLE_ARENA)
            && (ArenaOnly(run, withArena, arenas) ==> TypeOf(Nth(w, i)) != K_ALLOCATED && w.memory.heap == m.heap)
  {
    hide WorldRun, Born, EncodeTag, TypeOf, MemoryOk;
    WholeLives(m, withArena, arenas, run);
    var w := WorldRun(Born(m, withArena, arenas), run, arenas);
    forall j | 0 <= j < |withArena|
      ensures TypeOf(Nth(w, j)) in {K_DEFAULT, K_ALLOCATED, K_MUTABLE_ARENA}
      ensures HeapOnly(run, withArena, arenas) ==> TypeOf(Nth(w, j)) != K_MUTABLE_ARENA
      ensures ArenaOnly(run, withArena, arenas) ==> Owned(Nth(w, j)) == {}
    {
      TypeHistory(run, j, withArena[j], arenas);
    }
  }

  // ---- the object --------------------------------------------------------------------------------------------------

  /** The allocator every string shares. */
  class Allocator {
    var memory: Memory

    constructor ()
      ensures memory == Memory(map[DEFAULT := []], 8, {}, {}, [], [])
    {
      memory := Memory(map[DEFAULT := []], 8, {}, {}, [], []);
    }

    method New(onArena: bool) returns (ptr: nat)
      modifies this
      ensures ptr == old(memory.next) && memory == Allocate(old(memory), onArena)
    {
      ptr := memory.next;
      memory := Allocate(memory, onArena);
    }

    /** `delete ptr`: only a live heap string may be deleted. */
    method Free(ptr: nat)
      requires ptr in memory.heap
      modifies this
      ensures memory == Delete(old(memory), ptr)
    {
      memory := Delete(memory, ptr);
    }

    /** `ptr->assign(value)` on a live string other than the shared default. */
    method Write(ptr: nat, value: seq<byte>)
      requires ptr in memory.text && ptr != DEFAULT
      modifies this
      ensures memory == Assign(old(memory), ptr, value)
    {
      memory := Assign(memory, ptr, value);
    }
  }

  class ArenaString {
    const allocator: Allocator
    const arenas: bool  // PROTOOPT_HAS_PROTOBUF_ARENA
    var tagged: nat

    function Here(): Place
      reads this, allocator
    {
      Place(tagged, allocator.memory)
    }

    ghost predicate Valid()
      reads this, allocator
    {
      PlaceOk(Here())
    }

    constructor (allocator: Allocator, withArena: bool, arenas: bool)
      requires MemoryOk(allocator.memory)
      modifies allocator
      ensures this.allocator == allocator && this.arenas == arenas
      ensures Valid() && Here() == Construct(old(allocator.memory), withArena, arenas)
    {
      this.allocator, this.arenas := allocator, arenas;
      tagged := EncodeTag(DEFAULT, K_DEFAULT);
      new;
      hide MemoryOk, EncodeTag, Adopt, Effect;
      ConstructOk(allocator.memory, false, arenas);
      ConstructOk(allocator.memory, withArena, arenas);
      if withArena {
        var ptr := Replace(arenas, []);
      }
    }

    /** `AllocateString` followed by `SetTagged`. */
    method Replace(onArena: bool, init: seq<byte>) returns (ptr: nat)
      requires Valid() && TypeOf(Here()) != K_ALLOCATED
      modifies this, allocator
      ensures Valid() && Here() == Adopt(old(Here()), onArena, init) && ptr == PtrOf(Here())
    {
      hide EncodeTag, MemoryOk;
      AdoptOk(Here(), onArena, init);
      NextIsFresh(allocator.memory);
      ptr := allocator.New(onArena);
      allocator.Write(ptr, init);
      TagRoundTrips(ptr, if onArena then K_MUTABLE_ARENA else K_ALLOCATED);
      SetTag(ptr, if onArena then K_MUTABLE_ARENA else K_ALLOCATED);
    }

    /** `SetTagged`. */
    method SetTag(ptr: nat, kind: nat)
      requires TypeOf(Here()) == K_ALLOCATED ==> PtrOf(Here()) in allocator.memory.heap
      modifies this, allocator
      ensures Here() == SetTagged(old(Here()), ptr, kind)
    {
      hide EncodeTag;
      if ptr == DecodePtr(tagged) && kind == DecodeType(tagged) {
        return;
      }
      if DecodeType(tagged) == K_ALLOCATED {
        allocator.Free(DecodePtr(tagged));
      }
      tagged := EncodeTag(ptr, kind);
    }

    method Get() returns (text: seq<byte>)
      requires Valid()
      ensures text == Content(Here()) && PtrOf(Here()) in allocator.memory.text
    {
      text := allocator.memory.text[DecodePtr(tagged)];
    }

    method MutablePtr(withArena: bool) returns (ptr: nat)
      requires Valid()
      modifies this, allocator
      ensures Valid() && Here() == Mutable(old(Here()), withArena && arenas) && Effect(old(Here()), Here())
      ensures ptr == PtrOf(Here()) && ptr in allocator.memory.text && ptr != DEFAULT
      ensures Stored(old(Here()), Here(), withArena && arenas)
    {
      hide EncodeTag, Adopt, MemoryOk;
      MutableOk(Here(), withArena && arenas);
      if DecodeType(tagged) == K_ALLOCATED || DecodeType(tagged) == K_MUTABLE_ARENA {
        ptr := DecodePtr(tagged);
      } else if DecodeType(tagged) == K_DEFAULT {
        ptr := Replace(withArena && arenas, []);
      } else {
        var current := Get();
        ptr := Replace(withArena && arenas, current);
      }
    }

    method SetValue(value: seq<byte>, withArena: bool)
      requires Valid()
      modifies this, allocator
      ensures Valid() && Here() == Set(old(Here()), value, withArena && arenas) && Effect(old(Here()), Here())
      ensures AsCell(Here()) == Codec.SetStr(old(AsCell(Here())), value)
      ensures if value == [] && old(TypeOf(Here())) == K_DEFAULT then Here() == old(Here())
              else Stored(old(Here()), Here(), withArena && arenas)
    {
      hide EncodeTag, Mutable, MemoryOk;
      SetOk(Here(), value, withArena && arenas);
      if value == [] && DecodeType(tagged) == K_DEFAULT {
        return;
      }
      var ptr := MutablePtr(withArena);
      allocator.Write(ptr, value);
    }

    method ClearValue()
      requires Valid()
      modifies this, allocator
      ensures Valid() && Here() == Clear(old(Here())) && Effect(old(Here()), Here())
      ensures AsCell(Here()) == Schema.Str(true, [])
    {
      hide EncodeTag, MemoryOk;
      ClearOk(Here());
      if DecodeType(tagged) == K_DEFAULT {
        return;
      }
      if DecodeType(tagged) == K_ALLOCATED {
        allocator.Free(DecodePtr(tagged));
      }
      tagged := EncodeTag(DEFAULT, K_DEFAULT);
    }

    /** The destructor. */
    method Destruct()
      requires Valid()
      modifies this, allocator
      ensures Valid() && Here() == Destroy(old(Here())) && Effect(old(Here()), Here()) && Owned(Here()) == {}
    {
      hide EncodeTag, MemoryOk;
      DestroyOk(Here());
      if DecodeType(tagged) == K_ALLOCATED {
        allocator.Free(DecodePtr(tagged));
      }
      tagged := EncodeTag(DEFAULT, K_DEFAULT);
    }
  }
}
