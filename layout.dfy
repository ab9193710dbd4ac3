/** Layout discovery: the `init` function of valiface.go, which finds where the fields of
    reflect.Value lie by walking the declared fields of that struct type. */
module Layout {
  import opened Words

  /** One declared field of reflect.Value as reflection reports it: its name, its byte
      offset, and what looking up a field named `kind` in the type it points to yields. */
  datatype FieldDesc = FieldDesc(name: string, offset: Word, kindOffset: Option<Word>)

  /** The four package-level offsets that discovery sets. */
  datatype Offsets = Offsets(typOffset: Word, ptrOffset: Word, flagOffset: Word, typKindOffset: Word)

  /** A field discovery accepts: `ptr`, `flag`, or `typ` whose pointee has a `kind` field. */
  predicate Recognized(f: FieldDesc) {
    f.name == "ptr" || f.name == "flag" || (f.name == "typ" && f.kindOffset.Some?)
  }

  predicate AllRecognized(fields: seq<FieldDesc>) {
    forall f | f in fields :: Recognized(f)
  }

  /** The last field of `fields` named `name`, if any. */
  function LastNamed(fields: seq<FieldDesc>, name: string): (r: Option<FieldDesc>)
    ensures r.Some? ==> r.value in fields && r.value.name == name
    ensures r.None? <==> forall f | f in fields :: f.name != name
  {
    if fields == [] then None
    else if fields[|fields| - 1].name == name then Some(fields[|fields| - 1])
    else LastNamed(fields[..|fields| - 1], name)
  }

  /** The offset recorded for `name`: that of its last field, or 0 when there is none. */
  function OffsetOf(fields: seq<FieldDesc>, name: string): Word {
    match LastNamed(fields, name)
    case None => 0
    case Some(f) => f.offset
  }

  /** The recorded kind offset: the `kind` offset of the last `typ` field plus that
      field's own offset, or 0 when there is no `typ` field. */
  function KindOffsetOf(fields: seq<FieldDesc>): Word
    requires AllRecognized(fields)
  {
    match LastNamed(fields, "typ")
    case None => 0
    case Some(f) => assert Recognized(f); Add(f.kindOffset.value, f.offset)
  }

  /** `off` is what discovery records for `name`: the offset of a declared field of
      that name, or 0 when no field has the name. */
  predicate RecordedFrom(fields: seq<FieldDesc>, name: string, off: Word) {
    || (exists f | f in fields :: f.name == name && f.offset == off)
    || (off == 0 && forall f | f in fields :: f.name != name)
  }

  /** The offsets a successful discovery over `fields` leaves behind: each is the offset
      of a declared field of its name, or 0 when there is none; the kind offset is the
      `kind` offset of a declared `typ` field's pointee plus that field's offset, or 0. */
  function LayoutOf(fields: seq<FieldDesc>): (r: Offsets)
    requires AllRecognized(fields)
    ensures RecordedFrom(fields, "typ", r.typOffset)
    ensures RecordedFrom(fields, "ptr", r.ptrOffset)
    ensures RecordedFrom(fields, "flag", r.flagOffset)
    ensures || (exists f | f in fields :: f.name == "typ" && f.kindOffset.Some? &&
                                           r.typKindOffset == Add(f.kindOffset.value, f.offset))
            || (r.typKindOffset == 0 && forall f | f in fields :: f.name != "typ")
  {
    Offsets(OffsetOf(fields, "typ"), OffsetOf(fields, "ptr"), OffsetOf(fields, "flag"), KindOffsetOf(fields))
  }

  /** Walks the declared fields in order, recording each offset, and panics with
      UnknownLayout on the first field it does not recognise. */
  method Discover(fields: seq<FieldDesc>) returns (r: Result<Offsets, string>)
    ensures r.Fail? <==> exists f | f in fields :: !Recognized(f)
    ensures r.Fail? ==> r.error == UnknownLayout
    ensures r.Ok? ==> AllRecognized(fields) && r.value == LayoutOf(fields)
  {
    var typOffset, ptrOffset, typKindOffset, flagOffset: Word := 0, 0, 0, 0;
    for i := 0 to |fields|
      invariant AllRecognized(fields[..i])
      invariant typOffset == OffsetOf(fields[..i], "typ")
      invariant ptrOffset == OffsetOf(fields[..i], "ptr")
      invariant flagOffset == OffsetOf(fields[..i], "flag")
      invariant typKindOffset == KindOffsetOf(fields[..i])
    {
      var sf := fields[i];
      assert fields[..i + 1][..i] == fields[..i];
      assert fields[..i + 1] == fields[..i] + [sf];
      if sf.name == "typ" {
        typOffset := sf.offset;
        if sf.kindOffset.None? {
          assert sf in fields;
          return Fail(UnknownLayout);
        }
        typKindOffset := Add(sf.kindOffset.value, typOffset);
      } else if sf.name == "ptr" {
        ptrOffset := sf.offset;
      } else if sf.name == "flag" {
        flagOffset := sf.offset;
      } else {
        assert sf in fields;
        return Fail(UnknownLayout);
      }
    }
    assert fields[..|fields|] == fields;
    r := Ok(Offsets(typOffset, ptrOffset, flagOffset, typKindOffset));
  }

  /** LastNamed finds the field at the highest index carrying the name. */
  lemma {:induction false} LastNamedAt(fields: seq<FieldDesc>, name: string, j: nat)
    requires j < |fields| && fields[j].name == name
    requires forall k | j < k < |fields| :: fields[k].name != name
    ensures LastNamed(fields, name) == Some(fields[j])
  {
    if j < |fields| - 1 {
      var init := fields[..|fields| - 1];
      assert init[j] == fields[j];
      forall k | j < k < |init| ensures init[k].name != name {
        assert init[k] == fields[k];
      }
      LastNamedAt(init, name, j);
    }
  }

  /** The offset recorded for a name is that of its last field: a later field of the
      same name overwrites an earlier one. */
  lemma OffsetOfLastOccurrence(fields: seq<FieldDesc>, name: string, j: nat)
    requires j < |fields| && fields[j].name == name
    requires forall k | j < k < |fields| :: fields[k].name != name
    ensures OffsetOf(fields, name) == fields[j].offset
  {
    LastNamedAt(fields, name, j);
  }

  /** A field that is never declared is never detected: its offset stays 0. */
  lemma MissingFieldOffsetIsZero(fields: seq<FieldDesc>, name: string)
    requires forall f | f in fields :: f.name != name
    ensures OffsetOf(fields, name) == 0
  {
  }

  /** A successful discovery records, for `typ`, the offset of the last `typ` field and
      the sum of its pointee's `kind` offset and that field offset. */
  lemma KindOffsetAddsTypOffset(fields: seq<FieldDesc>, j: nat)
    requires AllRecognized(fields)
    requires j < |fields| && fields[j].name == "typ"
    requires forall k | j < k < |fields| :: fields[k].name != "typ"
    ensures fields[j].kindOffset.Some?
    ensures LayoutOf(fields).typOffset == fields[j].offset
    ensures LayoutOf(fields).typKindOffset == Add(fields[j].kindOffset.value, fields[j].offset)
  {
    assert fields[j] in fields;
    LastNamedAt(fields, "typ", j);
  }

  /** Field names are pairwise distinct. */
  predicate DistinctNames(fields: seq<FieldDesc>) {
    forall i, j | 0 <= i < j < |fields| :: fields[i].name != fields[j].name
  }

  /** With distinct names, the field LastNamed finds is the one field of that name. */
  lemma UniqueNamed(fields: seq<FieldDesc>, f: FieldDesc)
    requires DistinctNames(fields) && f in fields
    ensures LastNamed(fields, f.name) == Some(f)
  {
    var g := LastNamed(fields, f.name).value;
    var i :| 0 <= i < |fields| && fields[i] == f;
    var j :| 0 <= j < |fields| && fields[j] == g;
    if i < j {
      assert fields[i].name != fields[j].name;
    } else if j < i {
      assert fields[j].name != fields[i].name;
    }
  }

  /** Discovery does not depend on the order in which the fields are declared: two
      declarations holding the same fields, each name once, are both accepted or both
      refused, and give the same offsets. */
  lemma {:induction false} ReorderedFieldsSameLayout(a: seq<FieldDesc>, b: seq<FieldDesc>)
    requires multiset(a) == multiset(b)
    requires DistinctNames(a) && DistinctNames(b)
    ensures AllRecognized(a) <==> AllRecognized(b)
    ensures AllRecognized(a) ==> LayoutOf(a) == LayoutOf(b)
  {
    forall f ensures f in a <==> f in b {
      assert f in a <==> f in multiset(a);
      assert f in b <==> f in multiset(b);
    }
    forall name ensures LastNamed(a, name) == LastNamed(b, name) {
      match LastNamed(a, name)
      case None =>
        assert forall f | f in b :: f.name != name;
      case Some(f) =>
        UniqueNamed(a, f);
        UniqueNamed(b, f);
    }
  }
}
