/** Matching the 2024 sheet's assembly names to assembly ids, and the 2024
    writes of `seed`. The ids come from the stored station documents: each
    gives an `(ac_id, ac_name)` pair, already rendered with `str()`. */
module Reconcile {
  import opened Wrappers
  import opened Text
  import opened Dict
  import opened Records
  import opened Sheet2024
  import opened Merge

  /** Upper-cased assembly name to assembly id, in insertion order. */
  type NameMap = Dict<string, string>

  // ---------------------------------------------------------------------
  // build_ac_name_map
  // ---------------------------------------------------------------------

  /** Document `doc` contributes `(upper(name), id)` when both are non-empty. */
  predicate Contributes(doc: (string, string)) {
    doc.0 != "" && Upper(doc.1) != ""
  }

  /** The loop over the stored documents from `docs[0]` on, with the map so
      far in `acc`: a later document with the same name overwrites the id. */
  function BuildNameMap(docs: seq<(string, string)>, acc: NameMap): (m: NameMap)
    decreases |docs|
  {
    if docs == [] then acc else BuildNameMap(docs[1..], Record(docs[0], acc))
  }

  /** One iteration of the loop: a contributing document sets its name's id. */
  function Record(doc: (string, string), acc: NameMap): NameMap {
    if Contributes(doc) then Put(acc, Upper(doc.1), doc.0) else acc
  }

  /** The position of the last contributing document with upper-cased name
      `name`. */
  function LastNamed(docs: seq<(string, string)>, name: string): (r: Option<nat>)
    ensures r.Some? ==> r.value < |docs| && Contributes(docs[r.value]) && Upper(docs[r.value].1) == name
    ensures r.Some? ==> forall j :: r.value < j < |docs| ==> !(Contributes(docs[j]) && Upper(docs[j].1) == name)
    ensures r.None? ==> forall j :: 0 <= j < |docs| ==> !(Contributes(docs[j]) && Upper(docs[j].1) == name)
    decreases |docs|
  {
    if docs == [] then None
    else
      var n := |docs| - 1;
      if Contributes(docs[n]) && Upper(docs[n].1) == name then Some(n)
      else LastNamed(docs[..n], name)
  }

  /** A name map keys no name twice and holds only non-empty names and ids. */
  predicate WellFormed(m: NameMap) {
    NoDupKeys(m) && forall i :: 0 <= i < |m| ==> m[i].0 != "" && m[i].1 != ""
  }

  lemma PutWellFormed(m: NameMap, k: string, v: string)
    requires WellFormed(m) && k != "" && v != ""
    ensures WellFormed(Put(m, k, v))
  {
    var r := Put(m, k, v);
    forall i | 0 <= i < |r| ensures r[i].0 != "" && r[i].1 != "" {
      assert r[i] == (k, v) || r[i] in m;
    }
  }

  /** The map holds, for every name some document contributes, the id of the
      last such document; no other names; and no empty name or id. */
  lemma BuildNameMapSpec(docs: seq<(string, string)>, acc: NameMap)
    requires WellFormed(acc)
    ensures var m := BuildNameMap(docs, acc);
      && WellFormed(m)
      && forall name :: Get(m, name) ==
           (if LastNamed(docs, name).Some? then Some(docs[LastNamed(docs, name).value].0) else Get(acc, name))
  {
    BuildNameMapWellFormed(docs, acc);
    forall name ensures Get(BuildNameMap(docs, acc), name) == NamedId(docs, acc, name) {
      BuildNameMapGet(docs, acc, name);
    }
  }

  lemma {:induction false} BuildNameMapWellFormed(docs: seq<(string, string)>, acc: NameMap)
    requires WellFormed(acc)
    ensures WellFormed(BuildNameMap(docs, acc))
    decreases |docs|
  {
    if docs != [] {
      if Contributes(docs[0]) {
        PutWellFormed(acc, Upper(docs[0].1), docs[0].0);
      }
      BuildNameMapWellFormed(docs[1..], Record(docs[0], acc));
    }
  }

  /** The id the loop leaves for `name`: that of the last contributing
      document with that name, or what `acc` held before. */
  function NamedId(docs: seq<(string, string)>, acc: NameMap, name: string): Option<string> {
    if LastNamed(docs, name).Some? then Some(docs[LastNamed(docs, name).value].0) else Get(acc, name)
  }

  /** What the map holds for one name. */
  lemma {:induction false} BuildNameMapGet(docs: seq<(string, string)>, acc: NameMap, name: string)
    ensures Get(BuildNameMap(docs, acc), name) == NamedId(docs, acc, name)
    decreases |docs|
  {
    if docs != [] {
      BuildNameMapGet(docs[1..], Record(docs[0], acc), name);
      NamedIdCons(docs, acc, name);
    }
  }

  /** Recording the first document and then looking at the rest leaves the same
      id as looking at all of them. */
  lemma NamedIdCons(docs: seq<(string, string)>, acc: NameMap, name: string)
    requires docs != []
    ensures NamedId(docs, acc, name) == NamedId(docs[1..], Record(docs[0], acc), name)
  {
    LastNamedCons(docs, name);
    var l := LastNamed(docs[1..], name);
    if l.Some? {
      assert docs[1..][l.value] == docs[l.value + 1];
    }
  }

  /** `LastNamed` of a non-empty sequence, seen from its first element. */
  lemma {:induction false} LastNamedCons(docs: seq<(string, string)>, name: string)
    requires docs != []
    ensures LastNamed(docs, name) ==
      (if LastNamed(docs[1..], name).Some? then Some(LastNamed(docs[1..], name).value + 1)
       else if Contributes(docs[0]) && Upper(docs[0].1) == name then Some(0) else None)
    decreases |docs|
  {
    if |docs| > 1 {
      var init := docs[..|docs| - 1];
      assert init[1..] == docs[1..][..|docs[1..]| - 1];
      assert init[0] == docs[0];
      LastNamedCons(init, name);
    }
  }

  /** `build_ac_name_map`: the map starts empty. */
  function NameMapOf(docs: seq<(string, string)>): NameMap {
    BuildNameMap(docs, [])
  }

  lemma NameMapOfSpec(docs: seq<(string, string)>)
    ensures WellFormed(NameMapOf(docs))
    ensures forall name ::
      Get(NameMapOf(docs), name) ==
        (if LastNamed(docs, name).Some? then Some(docs[LastNamed(docs, name).value].0) else None)
  {
    BuildNameMapSpec(docs, []);
  }

  // ---------------------------------------------------------------------
  // Resolving an assembly name
  // ---------------------------------------------------------------------

  /** Either name contains the other. */
  predicate Overlaps(a: string, b: string) {
    Contains(b, a) || Contains(a, b)
  }

  /** The first entry, in insertion order, whose name overlaps `asm`. */
  function FirstOverlap(m: NameMap, asm: string, from: nat): (r: Option<nat>)
    ensures r.Some? ==> from <= r.value < |m| && Overlaps(asm, m[r.value].0)
    ensures r.Some? ==> forall j :: from <= j < r.value ==> !Overlaps(asm, m[j].0)
    ensures r.None? ==> forall j :: from <= j < |m| ==> !Overlaps(asm, m[j].0)
    decreases |m| - from
  {
    if from >= |m| then None
    else if Overlaps(asm, m[from].0) then Some(from)
    else FirstOverlap(m, asm, from + 1)
  }

  /** The id for an assembly name. An exact entry with a non-empty id wins,
      even over an earlier entry that overlaps the name; otherwise the first
      overlapping entry, in map order, decides, and its id must be non-empty.
      On a well-formed map a name therefore resolves exactly when it is a key
      or overlaps some key. */
  function Resolve(m: NameMap, asm: string): (r: Option<string>)
    ensures r.Some? ==> r.value != ""
    ensures WellFormed(m) ==>
      (r.Some? <==> asm in Keys(m) || exists j :: 0 <= j < |m| && Overlaps(asm, m[j].0))
    ensures WellFormed(m) && asm in Keys(m) ==> r == Get(m, asm)
    ensures asm !in Keys(m) && r.Some? ==>
      exists i :: 0 <= i < |m| && r == Some(m[i].1) && Overlaps(asm, m[i].0)
                  && forall j :: 0 <= j < i ==> !Overlaps(asm, m[j].0)
  {
    var exact := Get(m, asm);
    KeyIdNonEmpty(m, asm);
    if exact.Some? && exact.value != "" then exact
    else
      match FirstOverlap(m, asm, 0)
      case Some(i) => if m[i].1 != "" then Some(m[i].1) else None
      case None => None
  }

  /** In a well-formed map, a key's id is not empty. */
  lemma KeyIdNonEmpty(m: NameMap, asm: string)
    ensures WellFormed(m) && asm in Keys(m) ==> Get(m, asm).Some? && Get(m, asm).value != ""
  {
    if WellFormed(m) && asm in Keys(m) {
      var i :| 0 <= i < |m| && m[i].0 == asm;
      GetEntry(m, i);
    }
  }

  /** The two entries of the example: the overlap alone would pick the first. */
  const ExampleMap: NameMap := [("VIJAYAWADA WEST", "80"), ("VIJAYAWADA", "81")]

  /** An exact key is preferred over an earlier entry that contains it. */
  lemma ExactBeforeOverlap()
    ensures FirstOverlap(ExampleMap, "VIJAYAWADA", 0) == Some(0)
    ensures Resolve(ExampleMap, "VIJAYAWADA") == Some("81")
  {
    var m := ExampleMap;
    assert OccursAt(m[0].0, "VIJAYAWADA", 0) by {
      assert m[0].0[0..10] == "VIJAYAWADA";
    }
    assert Overlaps("VIJAYAWADA", m[0].0);
    assert Get(m, "VIJAYAWADA") == Some("81") by {
      assert m[0].0 != "VIJAYAWADA" by {
        assert |m[0].0| != |"VIJAYAWADA"|;
      }
      assert m[1..] == [("VIJAYAWADA", "81")];
    }
  }

  // ---------------------------------------------------------------------
  // The 2024 writes
  // ---------------------------------------------------------------------

  /** The 2024 writes of `seed` and the names it could not match. */
  datatype Upload = Upload(writes: seq<(string, Election)>, unmatched: seq<string>)

  /** The writes of one matched block: each station's record under
      `"{ac_id}-{ps_no}"`, in the block's order. A block keys each station
      once, so no two of its writes go to the same document. */
  function BlockWrites(acId: string, booths: Booths): (ws: seq<(string, Election)>)
    ensures |ws| == |booths|
    ensures forall i :: 0 <= i < |booths| ==> ws[i] == (DocId(acId, booths[i].0), booths[i].1)
    ensures NoDupKeys(booths) ==> NoDupKeys(ws)
  {
    var ws := seq(|booths|, i requires 0 <= i < |booths| => (DocId(acId, booths[i].0), booths[i].1));
    forall i, j | 0 <= i < j < |ws| && ws[i].0 == ws[j].0 ensures booths[i].0 == booths[j].0 {
      DocIdSameAssembly(acId, booths[i].0, booths[j].0);
    }
    ws
  }

  /** Within one assembly, the document id determines the station number. */
  lemma DocIdSameAssembly(acId: string, p1: string, p2: string)
    requires DocId(acId, p1) == DocId(acId, p2)
    ensures p1 == p2
  {
    assert p1 == DocId(acId, p1)[|acId| + 1..];
    assert p2 == DocId(acId, p2)[|acId| + 1..];
  }

  /** The loop over the 2024 blocks, in the order the sheet recorded them. */
  function Upload2024(data: Assemblies, m: NameMap): (u: Upload)
    decreases |data|
  {
    if data == [] then Upload([], [])
    else
      var rest := Upload2024(data[1..], m);
      match Resolve(m, data[0].0)
      case None => Upload(rest.writes, [data[0].0] + rest.unmatched)
      case Some(id) => Upload(BlockWrites(id, data[0].1) + rest.writes, rest.unmatched)
  }

  /** A block resolved to `id` at position `i`. */
  predicate ResolvedAt(data: Assemblies, m: NameMap, i: nat)
    requires i < |data|
  {
    Resolve(m, data[i].0).Some?
  }

  /** A name is unmatched exactly when some block of that name is unresolved,
      and every write is a station record of a resolved block under that
      block's id; the number of writes is the number of stations of resolved
      blocks. The order is stated by `Upload2024InOrder`. */
  lemma {:induction false} Upload2024Spec(data: Assemblies, m: NameMap)
    ensures var u := Upload2024(data, m);
      && (forall a :: a in u.unmatched <==> exists i :: 0 <= i < |data| && data[i].0 == a && !ResolvedAt(data, m, i))
      && (forall w :: w in u.writes <==>
            exists i, j :: 0 <= i < |data| && ResolvedAt(data, m, i) && 0 <= j < |data[i].1|
                        && w == (DocId(Resolve(m, data[i].0).value, data[i].1[j].0), data[i].1[j].1))
      && |u.writes| == ResolvedStations(data, m)
    decreases |data|
  {
    if data != [] {
      Upload2024Spec(data[1..], m);
      var u := Upload2024(data, m);
      var rest := Upload2024(data[1..], m);
      forall a ensures a in u.unmatched <==> exists i :: 0 <= i < |data| && data[i].0 == a && !ResolvedAt(data, m, i) {
        if a in rest.unmatched {
          var i :| 0 <= i < |data[1..]| && data[1..][i].0 == a && !ResolvedAt(data[1..], m, i);
          assert data[i + 1].0 == a && !ResolvedAt(data, m, i + 1);
        }
        if exists i :: 0 <= i < |data| && data[i].0 == a && !ResolvedAt(data, m, i) {
          var i :| 0 <= i < |data| && data[i].0 == a && !ResolvedAt(data, m, i);
          if i > 0 {
            assert data[1..][i - 1].0 == a && !ResolvedAt(data[1..], m, i - 1);
          }
        }
      }
      forall w ensures w in u.writes <==>
          exists i, j :: 0 <= i < |data| && ResolvedAt(data, m, i) && 0 <= j < |data[i].1|
                      && w == (DocId(Resolve(m, data[i].0).value, data[i].1[j].0), data[i].1[j].1)
      {
        UploadWritesStep(data, m, w);
      }
    }
  }

  /** The upload of one block: its writes under its resolved id or, when its
      name does not resolve, only its name. */
  function BlockUpload(block: (string, Booths), m: NameMap): Upload {
    match Resolve(m, block.0)
    case None => Upload([], [block.0])
    case Some(id) => Upload(BlockWrites(id, block.1), [])
  }

  /** One upload after another. */
  function Join(x: Upload, y: Upload): Upload {
    Upload(x.writes + y.writes, x.unmatched + y.unmatched)
  }

  /** The blocks are handled one after the other, in sheet order: the upload
      of a concatenation is the upload of the first part followed by that of
      the second. With `Upload2024Single` this fixes the order: the
      unmatched names keep the sheet order, and the writes are the blocks'
      writes in sheet order, each block's in its own order; a later write to
      the same document wins. */
  lemma {:induction false} Upload2024InOrder(a: Assemblies, b: Assemblies, m: NameMap)
    ensures Upload2024(a + b, m) == Join(Upload2024(a, m), Upload2024(b, m))
    decreases |a|
  {
    if a == [] {
      assert a + b == b;
      var y := Upload2024(b, m);
      assert [] + y.writes == y.writes && [] + y.unmatched == y.unmatched;
    } else {
      Upload2024InOrder(a[1..], b, m);
      Upload2024InOrderStep(a, b, m);
    }
  }

  /** The step of `Upload2024InOrder` at the first block of `a`. */
  lemma Upload2024InOrderStep(a: Assemblies, b: Assemblies, m: NameMap)
    requires a != []
    requires Upload2024(a[1..] + b, m) == Join(Upload2024(a[1..], m), Upload2024(b, m))
    ensures Upload2024(a + b, m) == Join(Upload2024(a, m), Upload2024(b, m))
  {
    assert (a + b)[0] == a[0] && (a + b)[1..] == a[1..] + b;
    Upload2024Cons(a, m);
    Upload2024Cons(a + b, m);
    JoinAssoc(BlockUpload(a[0], m), Upload2024(a[1..], m), Upload2024(b, m));
  }

  /** A single block gives its `BlockUpload`. */
  lemma Upload2024Single(block: (string, Booths), m: NameMap)
    ensures Upload2024([block], m) == BlockUpload(block, m)
  {
    Upload2024Cons([block], m);
    assert [block][1..] == [];
    var x := BlockUpload(block, m);
    assert x.writes + [] == x.writes && x.unmatched + [] == x.unmatched;
  }

  /** `Upload2024` handles the first block and then the rest. */
  lemma Upload2024Cons(data: Assemblies, m: NameMap)
    requires data != []
    ensures Upload2024(data, m) == Join(BlockUpload(data[0], m), Upload2024(data[1..], m))
  {
  }

  lemma JoinAssoc(x: Upload, y: Upload, z: Upload)
    ensures Join(x, Join(y, z)) == Join(Join(x, y), z)
  {
    assert x.writes + (y.writes + z.writes) == (x.writes + y.writes) + z.writes;
    assert x.unmatched + (y.unmatched + z.unmatched) == (x.unmatched + y.unmatched) + z.unmatched;
  }

  /** The number of stations in resolved blocks. */
  function ResolvedStations(data: Assemblies, m: NameMap): nat
    decreases |data|
  {
    if data == [] then 0
    else (if Resolve(m, data[0].0).Some? then |data[0].1| else 0) + ResolvedStations(data[1..], m)
  }

  /** The membership step of `Upload2024Spec` for writes. */
  lemma UploadWritesStep(data: Assemblies, m: NameMap, w: (string, Election))
    requires data != []
    requires var rest := Upload2024(data[1..], m);
      w in rest.writes <==>
        exists i, j :: 0 <= i < |data[1..]| && ResolvedAt(data[1..], m, i) && 0 <= j < |data[1..][i].1|
                    && w == (DocId(Resolve(m, data[1..][i].0).value, data[1..][i].1[j].0), data[1..][i].1[j].1)
    ensures w in Upload2024(data, m).writes <==>
      exists i, j :: 0 <= i < |data| && ResolvedAt(data, m, i) && 0 <= j < |data[i].1|
                  && w == (DocId(Resolve(m, data[i].0).value, data[i].1[j].0), data[i].1[j].1)
  {
    var rest := Upload2024(data[1..], m);
    var u := Upload2024(data, m);
    if w in u.writes {
      if w in rest.writes {
        var i, j :| 0 <= i < |data[1..]| && ResolvedAt(data[1..], m, i) && 0 <= j < |data[1..][i].1|
                    && w == (DocId(Resolve(m, data[1..][i].0).value, data[1..][i].1[j].0), data[1..][i].1[j].1);
        assert data[1..][i] == data[i + 1];
        assert ResolvedAt(data, m, i + 1);
      } else {
        var id := Resolve(m, data[0].0).value;
        var ws := BlockWrites(id, data[0].1);
        var j :| 0 <= j < |ws| && ws[j] == w;
        assert ResolvedAt(data, m, 0);
      }
    }
    if exists i, j :: 0 <= i < |data| && ResolvedAt(data, m, i) && 0 <= j < |data[i].1|
                   && w == (DocId(Resolve(m, data[i].0).value, data[i].1[j].0), data[i].1[j].1) {
      var i, j :| 0 <= i < |data| && ResolvedAt(data, m, i) && 0 <= j < |data[i].1|
                  && w == (DocId(Resolve(m, data[i].0).value, data[i].1[j].0), data[i].1[j].1);
      if i == 0 {
        var ws := BlockWrites(Resolve(m, data[0].0).value, data[0].1);
        assert ws[j] == w;
      } else {
        assert data[1..][i - 1] == data[i];
        assert ResolvedAt(data[1..], m, i - 1);
        assert w in rest.writes;
      }
    }
  }
}
