/** The part of a parsed class file that hook attachment reads: the constant
    pool (a 1-indexed table; slot 0 is never a valid reference) and the method
    table. Entry layouts follow the Java Virtual Machine Specification,
    section 4.4.1 (CONSTANT_Class_info) and section 4.4.7 (CONSTANT_Utf8_info). */
module ConstantPool {

  newtype byte = b: int | 0 <= b < 256

  /** A constant-pool entry, reduced to the two tags the class lookup
      distinguishes. */
  datatype CpEntry =
    | ClassInfo(nameIndex: nat)   // CONSTANT_Class: name_index
    | Utf8Info(text: string)      // CONSTANT_Utf8: its bytes, one char each
    | OtherInfo                   // any other tag, and unusable slots

  /** A method_info record: access flags and the pool indices of its name
      and descriptor. */
  datatype MethodRecord = MethodRecord(accessFlags: nat, nameIndex: nat, descriptorIndex: nat)

  /** A parsed class file, as ClassFile::load produces it. */
  datatype ClassDoc = ClassDoc(pool: seq<CpEntry>, methods: seq<MethodRecord>)

  /** Section 4.4.1 of the JVM specification: the name_index of a
      CONSTANT_Class entry is a valid (non-zero) pool index holding a
      CONSTANT_Utf8 entry. The lookup relies on it when it reinterprets the
      referenced entry as UTF-8 text. */
  predicate ClassRefsResolve(pool: seq<CpEntry>)
  {
    forall i :: 0 <= i < |pool| && pool[i].ClassInfo? ==>
      1 <= pool[i].nameIndex < |pool| && pool[pool[i].nameIndex].Utf8Info?
  }

  /** The documents the class-file parser hands back. */
  type ClassFile = d: ClassDoc | ClassRefsResolve(d.pool) witness ClassDoc([], [])

  /** Pool entry `i` is a CONSTANT_Class entry whose name is `name`. */
  predicate NamesClass(pool: seq<CpEntry>, i: nat, name: string)
    requires ClassRefsResolve(pool) && i < |pool|
  {
    pool[i].ClassInfo? && pool[pool[i].nameIndex].text == name
  }

  /** The first index at or after `from` naming class `name`, or 0 when no
      such entry exists. */
  function ClassIndexFrom(pool: seq<CpEntry>, name: string, from: nat): (r: nat)
    requires ClassRefsResolve(pool) && 1 <= from
    ensures r != 0 ==> from <= r < |pool| && NamesClass(pool, r, name)
    ensures forall j :: from <= j < |pool| && (r == 0 || j < r) ==> !NamesClass(pool, j, name)
    decreases |pool| - from
  {
    if from >= |pool| then 0
    else if NamesClass(pool, from, name) then from
    else ClassIndexFrom(pool, name, from + 1)
  }

  /** The class index the attach protocol looks for: the first entry from
      index 1 on that names class `name`; 0 means "not found" and is never
      a match. */
  function ClassIndex(pool: seq<CpEntry>, name: string): (r: nat)
    requires ClassRefsResolve(pool)
    ensures r != 0 ==> r < |pool| && NamesClass(pool, r, name)
    ensures r != 0 ==> forall j :: 1 <= j < r ==> !NamesClass(pool, j, name)
    ensures r == 0 <==> forall j :: 1 <= j < |pool| ==> !NamesClass(pool, j, name)
  {
    ClassIndexFrom(pool, name, 1)
  }

  /** The scan in JNIHook_Attach: walk the pool from index 1, skip entries
      that are not CONSTANT_Class, and stop at the first whose name entry
      equals `name`. */
  method FindClassIndex(pool: seq<CpEntry>, name: string) returns (classIndex: nat)
    requires ClassRefsResolve(pool)
    ensures classIndex == ClassIndex(pool, name)
  {
    classIndex := 0;
    var i := 1;
    while i < |pool|
      invariant 1 <= i
      invariant ClassIndexFrom(pool, name, i) == ClassIndex(pool, name)
    {
      if pool[i].ClassInfo? {
        var nameEntry := pool[pool[i].nameIndex];
        if nameEntry.text == name {
          classIndex := i;
          break;
        }
      }
      i := i + 1;
    }
  }
}
