/** Value unpacking: the `Interface` function of valiface.go, which rebuilds an interface
    value from a reflect.Value by reading the value's fields through raw memory at the
    offsets layout discovery recorded. */
module Unpacker {
  import opened Words
  import opened Layout

  /** A reflect.Value as `Interface` sees it: the address of its local copy `v`, whether
      `v.Kind()` is reflect.Interface, and the memory holding that copy and everything
      it points to. */
  datatype Handle = Handle(base: Word, isInterfaceKind: bool, mem: Memory)

  /** The two words of an interface value (`ifaceWords`): the type word, then the data word. */
  datatype Iface = Iface(typ: Word, data: Word)

  /** The nil interface. */
  const NilIface: Iface := Iface(0, 0)

  /** How a call ends: it returns an interface, it panics with a message, or it reads an
      unmapped address (a memory fault). */
  datatype Unpacked = Returned(iface: Iface) | Panicked(message: string) | Faulted(addr: Word)

  /** The branch the kind byte and the flag word select. */
  datatype Decision = BadIndir | Nil | DataIsFieldAddr | DataIsLoadedPtr

  /** The decision tree over the DirectIface bit of the kind byte and the Indir and
      Addr bits of the flag word; each decision corresponds to exactly one combination
      of the three bits. */
  function Classify(typKind: Word, flag: Word): (d: Decision)
    ensures var direct, indir, addr := HasBit(typKind, KindDirectIface), HasBit(flag, FlagIndir), HasBit(flag, FlagAddr);
      && (d == BadIndir <==> !direct && !indir)
      && (d == Nil <==> !direct && indir && addr)
      && (d == DataIsFieldAddr <==> (!direct && indir && !addr) || (direct && !indir))
      && (d == DataIsLoadedPtr <==> direct && indir)
  {
    if !HasBit(typKind, KindDirectIface) then
      if !HasBit(flag, FlagIndir) then BadIndir
      else if HasBit(flag, FlagAddr) then Nil
      else DataIsFieldAddr
    else if HasBit(flag, FlagIndir) then DataIsLoadedPtr
    else DataIsFieldAddr
  }

  /** Address of the ptr field of the handle: `&v + ptrOffset`. */
  function PtrField(layout: Offsets, h: Handle): Word {
    Add(h.base, layout.ptrOffset)
  }

  /** Address of the typ field of the handle: `&v + typOffset`. */
  function TypField(layout: Offsets, h: Handle): Word {
    Add(h.base, layout.typOffset)
  }

  /** Address of the flag field of the handle: `&v + flagOffset`. */
  function FlagField(layout: Offsets, h: Handle): Word {
    Add(h.base, layout.flagOffset)
  }

  /** The type word loaded from the typ field. */
  function Typ(layout: Offsets, h: Handle): Word
    requires TypField(layout, h) in h.mem
  {
    h.mem[TypField(layout, h)]
  }

  /** Where the kind byte is read: the type word plus the recorded kind offset. */
  function KindAddr(layout: Offsets, h: Handle): Word
    requires TypField(layout, h) in h.mem
  {
    Add(Typ(layout, h), layout.typKindOffset)
  }

  /** The type word, the kind byte and the flag word can all be read. */
  predicate Readable(layout: Offsets, h: Handle) {
    TypField(layout, h) in h.mem && KindAddr(layout, h) in h.mem && FlagField(layout, h) in h.mem
  }

  function Kind(layout: Offsets, h: Handle): Word
    requires Readable(layout, h)
  {
    LowByte(h.mem[KindAddr(layout, h)])
  }

  function Flag(layout: Offsets, h: Handle): Word
    requires Readable(layout, h)
  {
    h.mem[FlagField(layout, h)]
  }

  function DecisionOf(layout: Offsets, h: Handle): Decision
    requires Readable(layout, h)
  {
    Classify(Kind(layout, h), Flag(layout, h))
  }

  /** What `Interface` does, as written: the interface shortcut reads two words at the
      ptr field's address; the "no type" test compares the typ field's address with nil;
      the data word is the ptr field's address, or the word loaded from it. The only
      panic is "bad indir", raised for a kind without DirectIface whose flag word lacks
      Indir, and a fault is always a read of an unmapped address. */
  function Unpack(layout: Offsets, h: Handle): (r: Unpacked)
    ensures r.Panicked? <==>
      && !h.isInterfaceKind && TypField(layout, h) != 0 && Readable(layout, h)
      && DecisionOf(layout, h) == BadIndir
    ensures r.Panicked? ==> r.message == BadIndirMessage
    ensures r.Faulted? ==> r.addr !in h.mem
  {
    var ptr := PtrField(layout, h);
    if h.isInterfaceKind then
      if ptr !in h.mem then Faulted(ptr)
      else if Add(ptr, WordSize) !in h.mem then Faulted(Add(ptr, WordSize))
      else Returned(Iface(h.mem[ptr], h.mem[Add(ptr, WordSize)]))
    else if TypField(layout, h) == 0 then Returned(NilIface)
    else if TypField(layout, h) !in h.mem then Faulted(TypField(layout, h))
    else if KindAddr(layout, h) !in h.mem then Faulted(KindAddr(layout, h))
    else if FlagField(layout, h) !in h.mem then Faulted(FlagField(layout, h))
    else
      match DecisionOf(layout, h)
      case BadIndir => Panicked(BadIndirMessage)
      case Nil => Returned(NilIface)
      case DataIsFieldAddr => Returned(Iface(Typ(layout, h), ptr))
      case DataIsLoadedPtr =>
        if ptr !in h.mem then Faulted(ptr) else Returned(Iface(Typ(layout, h), h.mem[ptr]))
  }

  /** The two memories hold the same thing at `a`: both unmapped, or both the same word. */
  predicate Agree(m1: Memory, m2: Memory, a: Word) {
    (a in m1 <==> a in m2) && (a in m1 ==> m1[a] == m2[a])
  }

  /** An interface-kind handle yields the two words stored at the ptr field's address,
      unchanged, and nothing else is read: any memory that agrees on those two words
      gives the same result. The typ and flag fields are each read exactly when they
      are one of those two words, as the flag field is when it directly follows ptr. */
  lemma ShortcutReadsOnlyContainer(layout: Offsets, h: Handle, other: Memory)
    requires h.isInterfaceKind
    requires Agree(h.mem, other, PtrField(layout, h))
    requires Agree(h.mem, other, Add(PtrField(layout, h), WordSize))
    ensures Unpack(layout, h.(mem := other)) == Unpack(layout, h)
    ensures var p := PtrField(layout, h);
      p in h.mem && Add(p, WordSize) in h.mem ==>
        Unpack(layout, h) == Returned(Iface(h.mem[p], h.mem[Add(p, WordSize)]))
  {
  }

  /** Once the type word, kind byte and flag word are read, the decision fixes the
      outcome: a panic, nil, the ptr field's address, or the word loaded from it. */
  lemma OutcomeOfDecision(layout: Offsets, h: Handle)
    requires !h.isInterfaceKind && TypField(layout, h) != 0 && Readable(layout, h)
    ensures var r, ptr := Unpack(layout, h), PtrField(layout, h);
      && (DecisionOf(layout, h) == BadIndir ==> r == Panicked(BadIndirMessage))
      && (DecisionOf(layout, h) == Nil ==> r == Returned(NilIface))
      && (DecisionOf(layout, h) == DataIsFieldAddr ==> r == Returned(Iface(Typ(layout, h), ptr)))
      && (DecisionOf(layout, h) == DataIsLoadedPtr && ptr in h.mem ==>
            r == Returned(Iface(Typ(layout, h), h.mem[ptr])))
  {
  }

  /** A returned interface that is not nil carries the loaded type word. */
  lemma ReturnedTypIsLoadedTyp(layout: Offsets, h: Handle)
    requires !h.isInterfaceKind
    ensures var r := Unpack(layout, h);
      r.Returned? && r.iface != NilIface ==>
        TypField(layout, h) in h.mem && r.iface.typ == Typ(layout, h)
  {
  }

  /** A nil result comes from the typ field lying at address 0, from the addressable
      indirect case, or from a container whose words both happen to be 0. */
  lemma NilResultCauses(layout: Offsets, h: Handle)
    requires !h.isInterfaceKind
    requires Unpack(layout, h) == Returned(NilIface)
    ensures || TypField(layout, h) == 0
            || (Readable(layout, h) && DecisionOf(layout, h) == Nil)
            || (&& Readable(layout, h) && Typ(layout, h) == 0
                && ((DecisionOf(layout, h) == DataIsFieldAddr && PtrField(layout, h) == 0) ||
                    (&& DecisionOf(layout, h) == DataIsLoadedPtr && PtrField(layout, h) in h.mem
                     && h.mem[PtrField(layout, h)] == 0)))
  {
  }

  /** The outcome depends on the kind byte only through its DirectIface bit and on the
      flag word only through its Indir and Addr bits: a memory that agrees on the typ
      and ptr fields and on those three bits gives the same result, however every other
      bit of the kind byte and the flag word is changed. */
  lemma OutcomeDependsOnlyOnThreeBits(layout: Offsets, h: Handle, other: Memory)
    requires !h.isInterfaceKind
    requires Agree(h.mem, other, TypField(layout, h))
    requires Agree(h.mem, other, PtrField(layout, h))
    requires TypField(layout, h) in h.mem ==>
      var k := KindAddr(layout, h);
      (k in h.mem <==> k in other) &&
      (k in h.mem ==> HasBit(h.mem[k], KindDirectIface) == HasBit(other[k], KindDirectIface))
    requires var f := FlagField(layout, h);
      (f in h.mem <==> f in other) &&
      (f in h.mem ==>
         && HasBit(h.mem[f], FlagIndir) == HasBit(other[f], FlagIndir)
         && HasBit(h.mem[f], FlagAddr) == HasBit(other[f], FlagAddr))
    ensures Unpack(layout, h.(mem := other)) == Unpack(layout, h)
  {
    var h' := h.(mem := other);
    if TypField(layout, h) != 0 && Readable(layout, h) {
      assert Typ(layout, h') == Typ(layout, h);
      assert Readable(layout, h');
      assert HasBit(Kind(layout, h'), KindDirectIface) == HasBit(Kind(layout, h), KindDirectIface);
      assert DecisionOf(layout, h') == DecisionOf(layout, h);
    }
  }

  /** The two words of the interface being built. */
  datatype Slot = TypWord | DataWord

  /** The local interface `i`, seen through `iw := (*ifaceWords)(&i)`. The ghost `writes`
      records the order in which its words are written. */
  class IfaceWords {
    var typ: Word
    var data: Word
    ghost var writes: seq<Slot>

    constructor ()
      ensures typ == 0 && data == 0 && writes == []
    {
      typ, data, writes := 0, 0, [];
    }

    method SetData(w: Word)
      modifies this
      ensures data == w && typ == old(typ) && writes == old(writes) + [DataWord]
    {
      data := w;
      writes := writes + [DataWord];
    }

    method SetTyp(w: Word)
      modifies this
      ensures typ == w && data == old(data) && writes == old(writes) + [TypWord]
    {
      typ := w;
      writes := writes + [TypWord];
    }
  }

  /** The calls that build a container rather than return early. */
  predicate Assembles(layout: Offsets, h: Handle) {
    && !h.isInterfaceKind && TypField(layout, h) != 0 && Readable(layout, h)
    && (DecisionOf(layout, h) == DataIsFieldAddr ||
        (DecisionOf(layout, h) == DataIsLoadedPtr && PtrField(layout, h) in h.mem))
  }

  /** `Interface` step by step: it computes what Unpack describes, and when it builds a
      container it writes the data word first and the type word last. */
  method Interface(layout: Offsets, h: Handle) returns (r: Unpacked, ghost writes: seq<Slot>)
    ensures r == Unpack(layout, h)
    ensures writes == if Assembles(layout, h) then [DataWord, TypWord] else []
  {
    writes := [];
    var ptr := Add(h.base, layout.ptrOffset);
    if h.isInterfaceKind {
      if ptr !in h.mem {
        return Faulted(ptr), writes;
      }
      if Add(ptr, WordSize) !in h.mem {
        return Faulted(Add(ptr, WordSize)), writes;
      }
      return Returned(Iface(h.mem[ptr], h.mem[Add(ptr, WordSize)])), writes;
    }

    var typPtr := Add(h.base, layout.typOffset);
    if typPtr == 0 {
      return Returned(NilIface), writes;
    }

    if typPtr !in h.mem {
      return Faulted(typPtr), writes;
    }
    var typ := h.mem[typPtr];
    var kindAddr := Add(typ, layout.typKindOffset);
    if kindAddr !in h.mem {
      return Faulted(kindAddr), writes;
    }
    var typKind := LowByte(h.mem[kindAddr]);
    var flagAddr := Add(h.base, layout.flagOffset);
    if flagAddr !in h.mem {
      return Faulted(flagAddr), writes;
    }
    var flag := h.mem[flagAddr];

    var iw := new IfaceWords();
    if !HasBit(typKind, KindDirectIface) {
      if !HasBit(flag, FlagIndir) {
        return Panicked(BadIndirMessage), writes;
      }
      if HasBit(flag, FlagAddr) {
        return Returned(NilIface), writes;
      }
      iw.SetData(ptr);
    } else if HasBit(flag, FlagIndir) {
      if ptr !in h.mem {
        return Faulted(ptr), writes;
      }
      iw.SetData(h.mem[ptr]);
    } else {
      iw.SetData(ptr);
    }

    iw.SetTyp(typ);
    writes := iw.writes;
    r := Returned(Iface(iw.typ, iw.data));
  }
}
