/** Struct-of-arrays types: the fields they get, the eager and the deferred way of building
    them, and the protocol by which concurrent workers complete one type exactly once. */
module SoaTypes {

  type TypeId = nat

  const I32_MAX := 0x7fff_ffff

  datatype SoaKind = Fixed | Slice | Dynamic

  /** A field of the element struct; only variables get a new type. */
  datatype ElemField = ElemField(name: string, typ: TypeId, isVariable: bool, index: int, tag: string)

  datatype FieldType = Plain(typ: TypeId) | ArrayOf(elem: TypeId, count: int) | MultiPointer(elem: TypeId) | Int | Allocator

  datatype SoaField = SoaField(name: string, typ: FieldType, index: int, soaPtr: bool, tag: string)

  function ExtraCount(kind: SoaKind): nat {
    match kind
    case Fixed => 0
    case Slice => 1
    case Dynamic => 3
  }

  /** A variable becomes an array or a multi-pointer of its type; other entities are kept. */
  function Widened(f: ElemField, kind: SoaKind, count: int): SoaField {
    if f.isVariable then
      SoaField(f.name, if kind.Fixed? then ArrayOf(f.typ, count) else MultiPointer(f.typ), f.index, !kind.Fixed?, f.tag)
    else SoaField(f.name, Plain(f.typ), f.index, false, f.tag)
  }

  function Trailing(kind: SoaKind, n: nat): seq<SoaField> {
    var len := SoaField("__$len", Int, n, false, "");
    var cap := SoaField("__$cap", Int, n + 1, false, "");
    var allocator := SoaField("allocator", Allocator, n + 2, false, "");
    match kind
    case Fixed => []
    case Slice => [len]
    case Dynamic => [len, cap, allocator]
  }

  /** The fields of the struct: those of the element, widened, then the bookkeeping ones. */
  function SoaFields(elem: seq<ElemField>, kind: SoaKind, count: int): (fs: seq<SoaField>)
    ensures |fs| == |elem| + ExtraCount(kind)
  {
    seq(|elem|, i requires 0 <= i < |elem| => Widened(elem[i], kind, count)) + Trailing(kind, |elem|)
  }

  // ----- building the fields -----

  class SoaStruct {
    const kind: SoaKind
    const soaCount: int
    var fields: array?<SoaField>
    var signal: bool

    ghost predicate Built(elem: seq<ElemField>)
      reads this, fields
    {
      fields != null && fields[..] == SoaFields(elem, kind, soaCount)
    }

    /** Making the type: at once when the element's fields are available, else left to a worker. */
    constructor (elem: seq<ElemField>, available: bool, kind: SoaKind, count: int)
      requires kind.Fixed? ==> count >= 0
      ensures this.kind == kind && soaCount == if count > I32_MAX then I32_MAX else count
      ensures signal == available
      ensures if available then Built(elem) && fresh(fields) else fields == null
    {
      var c := if count > I32_MAX then I32_MAX else count;
      this.kind := kind;
      this.soaCount := c;
      this.fields := null;
      this.signal := false;
      new;
      if available {
        var n := |elem|;
        var fs := new SoaField[n + ExtraCount(kind)](_ => SoaField("", Int, 0, false, ""));
        for i := 0 to n
          invariant forall j | 0 <= j < i :: fs[j] == Widened(elem[j], kind, c)
        {
          var old_ := elem[i];
          if old_.isVariable {
            var fieldType := if kind == Fixed then ArrayOf(old_.typ, c) else MultiPointer(old_.typ);
            fs[i] := SoaField(old_.name, fieldType, old_.index, kind != Fixed, old_.tag);
          } else {
            fs[i] := SoaField(old_.name, Plain(old_.typ), old_.index, false, old_.tag);
          }
        }
        if kind != Fixed {
          fs[n] := SoaField("__$len", Int, n, false, "");
          if kind == Dynamic {
            fs[n + 1] := SoaField("__$cap", Int, n + 1, false, "");
            fs[n + 2] := SoaField("allocator", Allocator, n + 2, false, "");
          }
        }
        assert fs[..] == SoaFields(elem, kind, c);
        fields := fs;
        signal := true;
      }
    }

    /** The deferred path, run by a worker once the element's fields are available. */
    method Complete(elem: seq<ElemField>)
      requires kind.Fixed? ==> soaCount >= 0
      modifies this
      ensures signal
      ensures if old(signal) then fields == old(fields) else Built(elem) && fresh(fields)
    {
      if signal {
        return;
      }
      var fieldCount := |elem|;
      var fs := new SoaField[fieldCount + ExtraCount(kind)](_ => SoaField("", Int, 0, false, ""));
      for i := 0 to fieldCount
        invariant forall j | 0 <= j < i :: fs[j] == WriteAt(elem, kind, soaCount, j)
      {
        fs[i] := WriteAt(elem, kind, soaCount, i);
      }
      if kind != Fixed {
        fs[fieldCount] := WriteAt(elem, kind, soaCount, fieldCount);
        if kind == Dynamic {
          fs[fieldCount + 1] := WriteAt(elem, kind, soaCount, fieldCount + 1);
          fs[fieldCount + 2] := WriteAt(elem, kind, soaCount, fieldCount + 2);
        }
      }
      forall i | 0 <= i < fs.Length { WritesAreFields(elem, kind, soaCount, i); }
      assert fs[..] == SoaFields(elem, kind, soaCount);
      fields := fs;
      signal := true;
    }
  }

  /** What the deferred path stores at index i, one store at a time. */
  function WriteAt(elem: seq<ElemField>, kind: SoaKind, count: int, i: nat): SoaField {
    var n := |elem|;
    if i < n then
      (if elem[i].isVariable then
         var fieldType := if kind == Fixed then ArrayOf(elem[i].typ, count) else MultiPointer(elem[i].typ);
         SoaField(elem[i].name, fieldType, elem[i].index, kind != Fixed, elem[i].tag)
       else SoaField(elem[i].name, Plain(elem[i].typ), elem[i].index, false, elem[i].tag))
    else if i == n then SoaField("__$len", Int, n, false, "")
    else if i == n + 1 then SoaField("__$cap", Int, n + 1, false, "")
    else SoaField("allocator", Allocator, n + 2, false, "")
  }

  lemma WritesAreFields(elem: seq<ElemField>, kind: SoaKind, count: int, i: nat)
    requires i < |elem| + ExtraCount(kind)
    ensures SoaFields(elem, kind, count)[i] == WriteAt(elem, kind, count, i)
  {
  }

  /** An element's field in the struct: a fixed array of as many elements as 32 bits allow, or a
      multi-pointer marked as such; what is no variable stays as it is. */
  predicate Carries(f: ElemField, kind: SoaKind, count: int, got: SoaField) {
    && got.name == f.name && got.index == f.index && got.tag == f.tag
    && got.soaPtr == (f.isVariable && !kind.Fixed?)
    && (!f.isVariable ==> got.typ == Plain(f.typ))
    && (f.isVariable && !kind.Fixed? ==> got.typ == MultiPointer(f.typ))
    && (f.isVariable && kind.Fixed? ==> got.typ == ArrayOf(f.typ, if count > 0x7fff_ffff then 0x7fff_ffff else count))
  }

  /** Building at once and building later give the same fields: those of the element, then a length
      unless the count is fixed, and a capacity and an allocator if it can grow. */
  method EagerMeetsDeferred(elem: seq<ElemField>, kind: SoaKind, count: int) returns (eager: SoaStruct, deferred: SoaStruct)
    requires kind.Fixed? ==> count >= 0
    ensures eager.signal && deferred.signal && eager.fields != null && deferred.fields != null
    ensures eager.fields[..] == deferred.fields[..]
    ensures eager.fields.Length == |elem| + match kind { case Fixed => 0 case Slice => 1 case Dynamic => 3 }
    ensures forall i | 0 <= i < |elem| :: Carries(elem[i], kind, count, eager.fields[i])
    ensures !kind.Fixed? ==> eager.fields[|elem|] == SoaField("__$len", Int, |elem|, false, "")
    ensures kind.Dynamic? ==> eager.fields[|elem| + 1] == SoaField("__$cap", Int, |elem| + 1, false, "")
    ensures kind.Dynamic? ==> eager.fields[|elem| + 2] == SoaField("allocator", Allocator, |elem| + 2, false, "")
  {
    eager := new SoaStruct(elem, true, kind, count);
    deferred := new SoaStruct(elem, false, kind, count);
    deferred.Complete(elem);
    ghost var fs := SoaFields(elem, kind, eager.soaCount);
    assert forall i | 0 <= i < |fs| :: eager.fields[..][i] == fs[i];
  }
}
