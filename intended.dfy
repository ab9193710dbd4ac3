/** The behaviour `Interface` evidently means to have, beside what it does as written:
    reflect's own conversion of a value to an interface reads the *contents* of the ptr
    and typ fields, where valiface.go uses their *addresses*. */
module Intended {
  import opened Words
  import opened Layout
  import opened Unpacker

  /** A value as a run-time representation locates it: stored at an address, or held
      inline as a single word. */
  datatype Denotation = StoredAt(addr: Word) | Inline(word: Word)

  /** The value a (non-interface) reflect.Value holds, by reflect's representation: for
      a type stored indirectly the value lies at the address the ptr field holds, which
      needs flagIndir; for a direct type the value is one word, the word at that address
      with flagIndir and the ptr field's own word without. None when the handle is
      inconsistent or the ptr field cannot be read. */
  function HandleValue(layout: Offsets, h: Handle): Option<Denotation>
    requires Readable(layout, h)
  {
    var p := PtrField(layout, h);
    if p !in h.mem then None
    else if !HasBit(Kind(layout, h), KindDirectIface) then
      if HasBit(Flag(layout, h), FlagIndir) then Some(StoredAt(h.mem[p])) else None
    else if HasBit(Flag(layout, h), FlagIndir) then
      if h.mem[p] in h.mem then Some(Inline(h.mem[h.mem[p]])) else None
    else Some(Inline(h.mem[p]))
  }

  /** The value an interface holds, by the interface representation: the data word is
      the value itself for a direct type and the value's address otherwise. */
  function ContainerValue(i: Iface, direct: bool): Denotation {
    if direct then Inline(i.data) else StoredAt(i.data)
  }

  /** Interface with the contents of the fields used where the code uses their
      addresses: the shortcut reads the interface the ptr field points to, the "no type"
      test looks at the type word, and every data word is one load further. As in
      Unpack, the only panic is "bad indir" and a fault is a read of an unmapped address. */
  function UnpackIntended(layout: Offsets, h: Handle): (r: Unpacked)
    ensures r.Panicked? <==>
      && !h.isInterfaceKind && TypField(layout, h) in h.mem && Typ(layout, h) != 0
      && Readable(layout, h) && PtrField(layout, h) in h.mem
      && DecisionOf(layout, h) == BadIndir
    ensures r.Panicked? ==> r.message == BadIndirMessage
    ensures r.Faulted? ==> r.addr !in h.mem
  {
    var p := PtrField(layout, h);
    if h.isInterfaceKind then
      if p !in h.mem then Faulted(p)
      else if h.mem[p] !in h.mem then Faulted(h.mem[p])
      else if Add(h.mem[p], WordSize) !in h.mem then Faulted(Add(h.mem[p], WordSize))
      else Returned(Iface(h.mem[h.mem[p]], h.mem[Add(h.mem[p], WordSize)]))
    else if TypField(layout, h) !in h.mem then Faulted(TypField(layout, h))
    else if Typ(layout, h) == 0 then Returned(NilIface)
    else if KindAddr(layout, h) !in h.mem then Faulted(KindAddr(layout, h))
    else if FlagField(layout, h) !in h.mem then Faulted(FlagField(layout, h))
    else if p !in h.mem then Faulted(p)
    else
      match DecisionOf(layout, h)
      case BadIndir => Panicked(BadIndirMessage)
      case Nil => Returned(NilIface)
      case DataIsFieldAddr => Returned(Iface(Typ(layout, h), h.mem[p]))
      case DataIsLoadedPtr =>
        if h.mem[p] !in h.mem then Faulted(h.mem[p])
        else Returned(Iface(Typ(layout, h), h.mem[h.mem[p]]))
  }

  /** A handle with a nil type word, such as the zero reflect.Value, gives nil. */
  lemma IntendedZeroTypeIsNil(layout: Offsets, h: Handle)
    requires !h.isInterfaceKind
    requires TypField(layout, h) in h.mem && Typ(layout, h) == 0
    ensures UnpackIntended(layout, h) == Returned(NilIface)
  {
  }

  /** The corrected unpacking returns the interface the handle holds: for an interface
      kind, the interface stored where the ptr field points; otherwise an interface with
      the handle's type word that locates the very value the handle locates. */
  lemma IntendedPreservesValue(layout: Offsets, h: Handle)
    ensures var p := PtrField(layout, h);
      h.isInterfaceKind && p in h.mem && h.mem[p] in h.mem && Add(h.mem[p], WordSize) in h.mem ==>
        UnpackIntended(layout, h) == Returned(Iface(h.mem[h.mem[p]], h.mem[Add(h.mem[p], WordSize)]))
    ensures
      && !h.isInterfaceKind && Readable(layout, h) && Typ(layout, h) != 0
      && HandleValue(layout, h).Some? && DecisionOf(layout, h) != Nil
      ==>
        var r := UnpackIntended(layout, h);
        && r.Returned? && r.iface.typ == Typ(layout, h)
        && Some(ContainerValue(r.iface, HasBit(Kind(layout, h), KindDirectIface))) == HandleValue(layout, h)
  {
  }

  /** The offsets discovery yields for typ at 0, ptr at 8 and flag at 16, with the
      `kind` byte at 23 of the type structure. */
  const ExampleLayout: Offsets := Offsets(0, 8, 16, 23)

  /** The zero reflect.Value, every field 0, copied to address 0x1000. */
  const ZeroHandle: Handle := Handle(0x1000, false, map[0x1000 := 0, 0x1008 := 0, 0x1010 := 0])

  /** reflect.ValueOf(42) for an int, copied to 0x1000: type word 0x2000 (kind byte 2,
      int, stored indirectly), ptr field 0x3000 where 42 is stored, flag word
      flagIndir | 2. */
  const IntHandle: Handle :=
    Handle(0x1000, false, map[0x1000 := 0x2000, 0x1008 := 0x3000, 0x1010 := 0x82, 0x2017 := 2, 0x3000 := 42])

  /** A reflect.Value of interface kind, copied to 0x1000: its ptr field 0x4000 points at
      the interface (0x5000, 0x6000); flag word flagIndir | 20 (reflect.Interface). */
  const InterfaceHandle: Handle :=
    Handle(0x1000, true, map[0x1000 := 0x2000, 0x1008 := 0x4000, 0x1010 := 0x94, 0x4000 := 0x5000, 0x4008 := 0x6000])

  /** As written, the zero reflect.Value is not reported as nil: the "no type" test sees
      the non-null address 0x1000 and the kind byte is then read at address 23, which
      faults. */
  lemma AsWrittenZeroHandleFaults()
    ensures Unpack(ExampleLayout, ZeroHandle) == Faulted(23)
    ensures UnpackIntended(ExampleLayout, ZeroHandle) == Returned(NilIface)
  {
  }

  /** As written, every data word is one load short: for the int 42 the container's
      data word is the ptr field's address 0x1008, where 0x3000 is stored, not the
      address 0x3000 of the 42; and the interface shortcut returns the ptr and flag
      words instead of the interface they point to. */
  lemma AsWrittenDataOneHopShort()
    ensures Unpack(ExampleLayout, IntHandle) == Returned(Iface(0x2000, 0x1008))
    ensures IntHandle.mem[0x1008] == 0x3000 && IntHandle.mem[0x3000] == 42
    ensures HandleValue(ExampleLayout, IntHandle) == Some(StoredAt(0x3000))
    ensures Some(ContainerValue(Iface(0x2000, 0x1008), false)) != HandleValue(ExampleLayout, IntHandle)
    ensures UnpackIntended(ExampleLayout, IntHandle) == Returned(Iface(0x2000, 0x3000))
    ensures Unpack(ExampleLayout, InterfaceHandle) == Returned(Iface(0x4000, 0x94))
    ensures UnpackIntended(ExampleLayout, InterfaceHandle) == Returned(Iface(0x5000, 0x6000))
  {
  }
}
