# valiface in Dafny

A model of the Go package `valiface`. It turns a `reflect.Value` into an `interface{}`
without going through `reflect.Value.Interface`, so it works even on values reached
through unexported fields. It does this by reading the private fields of
`reflect.Value` through `unsafe` pointers. The package has two parts, and each is one
module here:

- **Layout discovery** (`Layout`, file `layout.dfy`). The package `init` walks the
  declared fields of `reflect.Value` and records the offsets of `typ`, `ptr` and `flag`.
  It also records the offset of the `kind` byte inside the structure that `typ` points
  to. It panics with "reflect.Value known layout changed" on any other field name, or
  when that structure has no `kind` field. `Discover` is a method with the same loop.
  It returns `Ok(offsets)` or `Fail(UnknownLayout)`. Two quirks of the code are kept as
  they are:
  - A field that is never declared is not detected, and its offset stays 0.
  - The kind offset is stored as the `kind` field offset **plus** `typOffset`, and is
    later added to the type word itself.
- **Value unpacking** (`Unpacker`, file `unpack.dfy`). `Unpack` is `Interface` as a
  function.
  - A handle is the address of the local copy `v`, whether `v.Kind()` is
    `reflect.Interface`, and a memory. The memory maps addresses to 64-bit words.
  - The outcome is decided by three bits: `kindDirectIface` (1<<5) of the kind byte, and
    `flagIndir` (1<<7) and `flagAddr` (1<<8) of the flag word. `Classify` holds that
    decision tree.
  - A call returns an interface (two words, type then data), panics with "bad indir",
    or faults on an unmapped address. Go treats such a read as a recoverable
    nil-dereference panic when the address is in the first page, and as a fatal
    "unexpected fault address" error above it; the model has one `Faulted` outcome for
    both.
  - `Interface` is the same computation written step by step. It fills a local
    `IfaceWords` object, writing the data word before the type word, and a ghost trace
    records that order.
- `Words` (file `words.dfy`) holds the shared pieces: the word type, `uintptr`
  addition that wraps modulo 2^64, the memory type, and the constants.
- `Intended` (file `intended.dfy`) holds the corrected behaviour behind the findings
  below.

The model follows the code where the code and its doc comment disagree:

- The "no type" test on lines 73-77 compares the *address* of the `typ` field with nil.
  It does not look at the type word stored there. So as written it fires only when
  `&v + typOffset` is 0.
- `ptr` (line 66) is the *address* of the `ptr` field. The shortcut and all three
  data-word cases use it as such.

`Unpack` and `Interface` reproduce both behaviours. The corrected behaviour is in
`Intended`.

## Model

| member | source | states |
|---|---|---|
| `Words.Add` | valiface.go:66 | `uintptr` addition: the exact sum below 2^64, the sum minus 2^64 above |
| `Words.LowByte` | valiface.go:81 | a `uint8` read gives a value below 256 whose DirectIface bit is that of the stored word |
| `Layout.LastNamed` | valiface.go:32-47 | the field found is a declared field with that name; nothing is found exactly when no declared field has the name |
| `Layout.LayoutOf` | valiface.go:27-47 | the offsets a successful discovery leaves: each of `typOffset`, `ptrOffset`, `flagOffset` is the offset of a declared field of that name or 0 when there is none; `typKindOffset` is a declared `typ` field's `kind` offset plus that field's offset, or 0 |
| `Layout.Discover` | valiface.go:29-52 | fails, with the unknown-layout message, exactly when some field is neither `ptr`, `flag`, nor a `typ` whose pointee has a `kind` field; on success the offsets are those of the last field of each name, 0 for a missing name, and the kind offset plus `typOffset` |
| `Layout.LastNamedAt` | valiface.go:32-47 | the field recorded for a name is the one at the highest index with that name |
| `Layout.OffsetOfLastOccurrence` | valiface.go:36-47 | a later field of the same name overwrites the offset an earlier one recorded |
| `Layout.MissingFieldOffsetIsZero` | valiface.go:27 | a field that is never declared keeps offset 0; its absence is not detected |
| `Layout.KindOffsetAddsTypOffset` | valiface.go:36-42 | on success `typOffset` is the last `typ` field's offset and `typKindOffset` is its pointee's `kind` offset plus that offset |
| `Layout.ReorderedFieldsSameLayout` | valiface.go:32-51 | two declarations holding the same fields in a different order, each name once, are both accepted or both refused, with the same offsets |
| `Unpacker.Classify` | valiface.go:94-110 | the decision tree over the three bits; each decision (bad indir, nil, field address, loaded pointer) holds exactly when its combination of the DirectIface, Indir and Addr bits does (both directions) |
| `Unpacker.Unpack` | valiface.go:64-116 | `Interface` as written, as a function; the only panic is "bad indir", which happens exactly for a non-interface handle whose `typ` field is not at address 0, whose words can be read and whose kind lacks DirectIface while its flag lacks Indir; every fault is a read of an unmapped address |
| `Unpacker.ShortcutReadsOnlyContainer` | valiface.go:66-69 | for an interface-kind handle the result is the two words stored at `base + ptrOffset`, unchanged; any memory agreeing on those two words gives the same result; the `typ` and `flag` fields are each read exactly when they are one of those two words (in the standard layout `flag` directly follows `ptr`, so the `flag` field is read and the `typ` field is not) |
| `Unpacker.OutcomeOfDecision` | valiface.go:94-110 | DirectIface and Indir both clear: "bad indir" panic; DirectIface clear with Indir and Addr set: nil; DirectIface clear, Indir set, Addr clear, or DirectIface set with Indir clear: data word is the field address `base + ptrOffset`; both set: data word is the word loaded from that address |
| `Unpacker.ReturnedTypIsLoadedTyp` | valiface.go:80-114 | every non-nil interface returned for a non-interface handle carries the type word loaded from the `typ` field |
| `Unpacker.NilResultCauses` | valiface.go:73-104 | a nil result for a non-interface handle comes only from the `typ` field lying at address 0, from the addressable-indirect case, or from a zero type word together with a zero data word (the field address `base + ptrOffset` being 0, or the word loaded from it being 0) |
| `Unpacker.OutcomeDependsOnlyOnThreeBits` | valiface.go:81-110 | for a non-interface handle, with `isInterfaceKind` held fixed, the result depends on the kind byte only through bit 5 and on the flag word only through bits 7 and 8; changing any other bit of either word changes nothing (in Go, bits 0-4 of the flag word are `v.Kind()`, which is an input here) |
| `Unpacker.Interface` | valiface.go:64-116 | the step-by-step version returns what `Unpack` describes, and writes the data word and then the type word exactly when it builds a container |
| `Unpacker.IfaceWords.SetData` | valiface.go:105-109 | sets the data word, leaves the type word, appends the data write to the trace |
| `Unpacker.IfaceWords.SetTyp` | valiface.go:112-114 | sets the type word, leaves the data word, appends the type write to the trace |
| `Intended.AsWrittenZeroHandleFaults` | valiface.go:71-81 | the zero `reflect.Value` at a non-null address is not reported as nil: the kind byte is read at address 23, which faults |
| `Intended.AsWrittenDataOneHopShort` | valiface.go:64-110 | for `reflect.ValueOf(42)` the data word is the `ptr` field's address, not the address of the 42; for an interface-kind value the shortcut returns the `ptr` and `flag` words |
| `Intended.UnpackIntended` | valiface.go:64-116 | corrected `Interface`: uses the contents of the `ptr` and `typ` fields where the code uses their addresses; its only panic is "bad indir", exactly in the same bit combination, and every fault is a read of an unmapped address |
| `Intended.IntendedZeroTypeIsNil` | valiface.go:58-63 | corrected: a nil type word gives the nil interface, as the doc comment promises |
| `Intended.IntendedPreservesValue` | valiface.go:79-110 | corrected: the returned interface carries the handle's type word and locates the same value the handle locates; an interface-kind handle yields the interface its `ptr` field points to |

## Left out

- The `reflect` introspection calls (`reflect.TypeOf`, `NumField`, `Field`, `FieldByName`, `Type.Elem`) are foreign library calls, so their results are inputs. A field is given as its name, its offset, and what a `kind` lookup in its pointee yields. The panic `Elem` raises on a non-pointer field type, and the panic `FieldByName` raises when the pointee is not a struct, are not modelled; the model can only give such a field `kindOffset: None`, which ends in the UnknownLayout failure.
- `v.Kind() == reflect.Interface` is the input flag `isInterfaceKind` rather than being computed from the flag word.
- Go memory and `unsafe.Pointer` are reduced to an abstract map from addresses to 64-bit words on a 64-bit platform. A `uint8` read takes the low byte of the word stored at its address, which is the little-endian reading. Reading an address outside the map is a fault. Overlapping word reads at unaligned addresses, aliasing and the garbage collector are not captured.
- The package-level globals are not modelled as shared state. `Discover` returns the four offsets instead of assigning them, and the requirement that `init` runs before any `Interface` call is left to the caller.
- The concurrent collector that motivates filling the type word last is not modelled. Only the write order is kept, as a ghost trace.
- Both panics, and the runtime's nil-dereference panic, are result values rather than the end of the program.
- Unpack: a read of an unmapped address is one `Faulted` outcome; the model does not distinguish Go's recoverable nil-dereference panic (addresses in the first page) from the fatal "unexpected fault address" error (other addresses).
- UnpackIntended: its interface shortcut models only empty interfaces (`interface{}`); for an interface with methods reflect turns the method-table pointer into a type word, which the corrected shortcut does not do.
- Which Go versions the layout holds for is environmental and is not stated in code.

## Findings

| source | as written | input that shows it | evidently intended | confidence | as-written member | corrected member |
|---|---|---|---|---|---|---|
| valiface.go:73-77 | the "no type" test compares the address of the `typ` field, `&v + typOffset`, with nil, which a copy at a non-null address never matches | the zero `reflect.Value` (all fields 0) copied to 0x1000, with `typ`, `ptr`, `flag` at 0, 8, 16 and `kind` at 23 | return nil when the type word stored in the field is nil, as the doc comment on lines 60-61 says | not executed; high | `Intended.AsWrittenZeroHandleFaults` | `Intended.IntendedZeroTypeIsNil` |
| valiface.go:66-110 | `ptr` is the address of the `ptr` field, and it is used where reflect's own packing (which line 79 says is followed) uses the field's contents, so every data word is one load short | `reflect.ValueOf(42)` for an `int`: the result's data word is the field address 0x1008, holding 0x3000, instead of 0x3000, holding 42 | use the `ptr` field's word, loading one more time in each case, and read an interface-kind value's interface where that word points | not executed; high | `Intended.AsWrittenDataOneHopShort` | `Intended.IntendedPreservesValue` |
