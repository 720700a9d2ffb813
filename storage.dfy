/**
 * The browser's key-value store holding the four collections as JSON text,
 * the first-run seeding, the `byId` join helper and the shape of generated ids.
 */
module Storage {
  import opened Wrappers
  import opened Text
  import opened Records

  /** A parsed JSON value: an array of records, or any value that is not an array. */
  datatype Json = Array(items: seq<Record>) | Scalar

  /**
   * What `localStorage.getItem` finds under a key: nothing (or the empty string,
   * which the code treats the same way), text `JSON.parse` rejects, or a parseable value.
   */
  datatype Item = Absent | Corrupt | Text(value: Json)

  type Cells = map<string, Item>

  function Get(cells: Cells, key: string): Item
  {
    if key in cells then cells[key] else Absent
  }

  /** `store.load(key, fallback)`: the parsed value, or `fallback` when the key is absent or corrupt. */
  function LoadFrom(cells: Cells, key: string, fallback: Json): (r: Json)
    ensures Get(cells, key).Text? ==> r == Get(cells, key).value
    ensures Get(cells, key).Absent? || Get(cells, key).Corrupt? ==> r == fallback
  {
    match Get(cells, key)
    case Text(v) => v
    case _ => fallback
  }

  /** `store.save(key, data)`: the whole value under `key` is replaced. */
  function SaveTo(cells: Cells, key: string, data: Json): Cells
  {
    cells[key := Text(data)]
  }

  /** Loading what was just saved gives it back, whatever the fallback; no other key changes. */
  lemma LoadAfterSave(cells: Cells, key: string, data: Json, fallback: Json, other: string)
    ensures LoadFrom(SaveTo(cells, key, data), key, fallback) == data
    ensures other != key ==> Get(SaveTo(cells, key, data), other) == Get(cells, other)
  {
  }

  /** The store after `store.ensureArray(key)`: only a non-array value is overwritten, with `[]`. */
  function EnsureArrayCells(cells: Cells, key: string): Cells
  {
    if LoadFrom(cells, key, Array([])).Array? then cells else SaveTo(cells, key, Array([]))
  }

  /** What `store.ensureArray(key)` returns. */
  function EnsureArrayResult(cells: Cells, key: string): seq<Record>
  {
    match LoadFrom(cells, key, Array([]))
    case Array(items) => items
    case Scalar => []
  }

  /**
   * The cases of `ensureArray`: a stored array is returned untouched; a stored
   * non-array value is replaced by `[]`; an absent or corrupt key yields `[]`
   * and is left as it was (nothing is written).
   */
  lemma EnsureArrayCases(cells: Cells, key: string, other: string)
    ensures Get(cells, key).Text? && Get(cells, key).value.Array? ==>
      EnsureArrayResult(cells, key) == Get(cells, key).value.items && EnsureArrayCells(cells, key) == cells
    ensures Get(cells, key) == Text(Scalar) ==>
      EnsureArrayResult(cells, key) == [] && Get(EnsureArrayCells(cells, key), key) == Text(Array([]))
    ensures Get(cells, key).Absent? || Get(cells, key).Corrupt? ==>
      EnsureArrayResult(cells, key) == [] && EnsureArrayCells(cells, key) == cells
    ensures other != key ==> Get(EnsureArrayCells(cells, key), other) == Get(cells, other)
    ensures LoadFrom(EnsureArrayCells(cells, key), key, Array([])) == Array(EnsureArrayResult(cells, key))
  {
  }

  const SeedDepartments: seq<Department> := [
    Department("dep_cardio", "Cardiology"),
    Department("dep_ent", "ENT"),
    Department("dep_ortho", "Orthopedics"),
    Department("dep_neuro", "Neurology")
  ]

  const SeedDoctors: seq<Doctor> := [
    Doctor("doc_meena", "Dr. R. Meena", "dep_cardio", ["09:00", "09:30", "10:00", "10:30", "11:00"]),
    Doctor("doc_arun", "Dr. Arun V", "dep_ent", ["10:00", "10:30", "11:00", "11:30", "12:00"]),
    Doctor("doc_rahul", "Dr. Rahul S", "dep_ortho", ["09:00", "09:30", "10:00", "10:30", "11:00"]),
    Doctor("doc_nisha", "Dr. Nisha K", "dep_neuro", ["13:00", "13:30", "14:00", "14:30", "15:00"])
  ]

  function DepartmentRecords(ds: seq<Department>): (r: seq<Record>)
    ensures |r| == |ds| && forall i :: 0 <= i < |ds| ==> r[i] == DepartmentRecord(ds[i])
  {
    if ds == [] then [] else [DepartmentRecord(ds[0])] + DepartmentRecords(ds[1..])
  }

  function DoctorRecords(ds: seq<Doctor>): (r: seq<Record>)
    ensures |r| == |ds| && forall i :: 0 <= i < |ds| ==> r[i] == DoctorRecord(ds[i])
  {
    if ds == [] then [] else [DoctorRecord(ds[0])] + DoctorRecords(ds[1..])
  }

  /** Writes `data` under `key` only when nothing is stored there (`if (!localStorage.getItem(key))`). */
  function SeedKey(cells: Cells, key: string, data: Json): Cells
  {
    if Get(cells, key).Absent? then SaveTo(cells, key, data) else cells
  }

  /** The store after `seedData()`. */
  function SeedFrom(cells: Cells): Cells
  {
    var withDepartments := SeedKey(cells, "departments", Array(DepartmentRecords(SeedDepartments)));
    var withDoctors := SeedKey(withDepartments, "doctors", Array(DoctorRecords(SeedDoctors)));
    EnsureArrayCells(EnsureArrayCells(withDoctors, "patients"), "appointments")
  }

  /** Seeding writes departments and doctors only where nothing was stored. */
  lemma SeedWritesOnlyAbsent(cells: Cells)
    ensures Get(SeedFrom(cells), "departments")
      == if Get(cells, "departments").Absent? then Text(Array(DepartmentRecords(SeedDepartments)))
         else Get(cells, "departments")
    ensures Get(SeedFrom(cells), "doctors")
      == if Get(cells, "doctors").Absent? then Text(Array(DoctorRecords(SeedDoctors)))
         else Get(cells, "doctors")
  {
  }

  /** Seeding never overwrites an array stored under any key, and leaves keys it does not own alone. */
  lemma SeedKeepsArrays(cells: Cells, key: string)
    ensures Get(cells, key).Text? && Get(cells, key).value.Array? ==> Get(SeedFrom(cells), key) == Get(cells, key)
    ensures key !in {"departments", "doctors", "patients", "appointments"} ==>
      Get(SeedFrom(cells), key) == Get(cells, key)
  {
  }

  /** After seeding, patients and appointments always load as arrays. */
  lemma SeedLoadsCollections(cells: Cells)
    ensures LoadFrom(SeedFrom(cells), "patients", Array([])).Array?
    ensures LoadFrom(SeedFrom(cells), "appointments", Array([])).Array?
  {
    var c := SeedKey(SeedKey(cells, "departments", Array(DepartmentRecords(SeedDepartments))),
                     "doctors", Array(DoctorRecords(SeedDoctors)));
    var c1 := EnsureArrayCells(c, "patients");
    EnsureArrayCases(c, "patients", "appointments");
    EnsureArrayCases(c1, "appointments", "patients");
  }

  /** Seeding on every page load is harmless: a second run changes nothing. */
  lemma SeedIdempotent(cells: Cells)
    ensures SeedFrom(SeedFrom(cells)) == SeedFrom(cells)
  {
    var s := SeedFrom(cells);
    var c := SeedKey(SeedKey(cells, "departments", Array(DepartmentRecords(SeedDepartments))),
                     "doctors", Array(DoctorRecords(SeedDoctors)));
    var c1 := EnsureArrayCells(c, "patients");
    EnsureArrayCases(c, "patients", "appointments");
    EnsureArrayCases(c1, "appointments", "patients");
    SeedWritesOnlyAbsent(cells);
    assert !Get(s, "departments").Absent? && !Get(s, "doctors").Absent?;
    assert SeedKey(SeedKey(s, "departments", Array(DepartmentRecords(SeedDepartments))),
                   "doctors", Array(DoctorRecords(SeedDoctors))) == s;
    EnsureArrayCases(s, "patients", "appointments");
    EnsureArrayCases(s, "appointments", "patients");
  }

  /** On a fresh store the getters return the seed lists and empty patient and appointment lists. */
  lemma SeedFreshStore()
    ensures LoadFrom(SeedFrom(map[]), "departments", Array([])) == Array(DepartmentRecords(SeedDepartments))
    ensures LoadFrom(SeedFrom(map[]), "doctors", Array([])) == Array(DoctorRecords(SeedDoctors))
    ensures LoadFrom(SeedFrom(map[]), "patients", Array([])) == Array([])
    ensures LoadFrom(SeedFrom(map[]), "appointments", Array([])) == Array([])
  {
  }

  /** Every seeded doctor belongs to a seeded department. */
  lemma SeedDoctorsHaveDepartments()
    ensures forall d :: d in SeedDoctors ==> exists dep :: dep in SeedDepartments && dep.id == d.departmentId
  {
    assert SeedDepartments[0].id == SeedDoctors[0].departmentId;
    assert SeedDepartments[1].id == SeedDoctors[1].departmentId;
    assert SeedDepartments[2].id == SeedDoctors[2].departmentId;
    assert SeedDepartments[3].id == SeedDoctors[3].departmentId;
  }

  /** Seeded ids are pairwise distinct, within and across the two lists. */
  lemma SeedIdsDistinct()
    ensures forall i, j :: 0 <= i < j < |SeedDepartments| ==> SeedDepartments[i].id != SeedDepartments[j].id
    ensures forall i, j :: 0 <= i < j < |SeedDoctors| ==> SeedDoctors[i].id != SeedDoctors[j].id
    ensures forall i, j :: 0 <= i < |SeedDepartments| && 0 <= j < |SeedDoctors| ==>
      SeedDepartments[i].id != SeedDoctors[j].id
  {
  }

  /** Each seeded doctor offers five slots in strictly ascending string order (so all distinct). */
  lemma SeedSlotsAscending()
    ensures forall d :: d in SeedDoctors ==>
      |d.slots| == 5 && forall i, j :: 0 <= i < j < 5 ==> StrLess(d.slots[i], d.slots[j]) && d.slots[i] != d.slots[j]
  {
    forall d | d in SeedDoctors
      ensures |d.slots| == 5 && forall i, j :: 0 <= i < j < 5 ==> StrLess(d.slots[i], d.slots[j]) && d.slots[i] != d.slots[j]
    {
      AscendingSlots(d.slots);
    }
  }

  lemma AscendingSlots(slots: seq<string>)
    requires |slots| == 5 && forall i :: 0 <= i < 4 ==> StrLess(slots[i], slots[i + 1])
    ensures forall i, j :: 0 <= i < j < 5 ==> StrLess(slots[i], slots[j]) && slots[i] != slots[j]
  {
    forall i, j | 0 <= i < j < 5 ensures StrLess(slots[i], slots[j]) && slots[i] != slots[j] {
      var k := i;
      while k + 1 < j
        invariant i <= k < j && StrLess(slots[i], slots[k + 1])
      {
        StrLessTransitive(slots[i], slots[k + 1], slots[k + 2]);
        k := k + 1;
      }
      if slots[i] == slots[j] {
        StrLessIrreflexive(slots[i]);
      }
    }
  }

  /**
   * The index `findIndex(x => idOf(x) === id)` returns: the first element with
   * that id, or `None` (JavaScript's -1) when there is none.
   */
  function FirstIndex<T>(list: seq<T>, id: string, idOf: T -> string): (r: Option<nat>)
    ensures r.Some? ==> r.value < |list| && idOf(list[r.value]) == id
    ensures r.Some? ==> forall j :: 0 <= j < r.value ==> idOf(list[j]) != id
    ensures r.None? <==> forall j :: 0 <= j < |list| ==> idOf(list[j]) != id
  {
    if list == [] then None
    else if idOf(list[0]) == id then Some(0)
    else match FirstIndex(list[1..], id, idOf)
      case None => None
      case Some(i) => Some(i + 1)
  }

  /** `byId(list, id)`: the first element whose id is `id`, or `None` (JavaScript's null). */
  function ById<T>(list: seq<T>, id: string, idOf: T -> string): (r: Option<T>)
    ensures r.None? <==> forall j :: 0 <= j < |list| ==> idOf(list[j]) != id
    ensures r.Some? ==>
      exists i :: 0 <= i < |list| && list[i] == r.value && idOf(r.value) == id
                  && forall j :: 0 <= j < i ==> idOf(list[j]) != id
  {
    match FirstIndex(list, id, idOf)
    case None => None
    case Some(i) => Some(list[i])
  }

  /** `uid(prefix)`, with the base-36 clock reading and the random part passed in. */
  function Uid(prefix: string, stamp: string, random: string): (r: string)
    ensures |r| == |prefix| + 1 + |stamp| + |random|
    ensures r[..|prefix| + 1] == prefix + "_"
  {
    prefix + "_" + stamp + random
  }

  /** Patient ids (prefix "p") and appointment ids (prefix "a") can never coincide. */
  lemma UidPrefixesSeparate(s1: string, r1: string, s2: string, r2: string)
    ensures Uid("p", s1, r1) != Uid("a", s2, r2)
  {
    assert Uid("p", s1, r1)[0] == 'p' && Uid("a", s2, r2)[0] == 'a';
  }

  /** The browser's `localStorage`, shared by every page of the application. */
  class Store {
    var cells: Cells

    constructor (initial: Cells)
      ensures cells == initial
    {
      cells := initial;
    }

    /** `store.load(key, fallback)`. */
    function Load(key: string, fallback: Json): Json
      reads this
    {
      LoadFrom(cells, key, fallback)
    }

    /** `store.save(key, data)`. */
    method Save(key: string, data: Json)
      modifies this
      ensures cells == SaveTo(old(cells), key, data)
      ensures Load(key, Array([])) == data
    {
      cells := cells[key := Text(data)];
    }

    /** `store.ensureArray(key)`. */
    method EnsureArray(key: string) returns (arr: seq<Record>)
      modifies this
      ensures cells == EnsureArrayCells(old(cells), key)
      ensures arr == EnsureArrayResult(old(cells), key)
    {
      var value := Load(key, Array([]));
      if !value.Array? {
        Save(key, Array([]));
        arr := [];
      } else {
        arr := value.items;
      }
    }

    /** `seedData()`. */
    method SeedData()
      modifies this
      ensures cells == SeedFrom(old(cells))
    {
      if Get(cells, "departments").Absent? {
        Save("departments", Array(DepartmentRecords(SeedDepartments)));
      }
      if Get(cells, "doctors").Absent? {
        Save("doctors", Array(DoctorRecords(SeedDoctors)));
      }
      var _ := EnsureArray("patients");
      var _ := EnsureArray("appointments");
    }
  }
}
