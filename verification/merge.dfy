/** The merge step of `seed`: the 2009, 2014 and 2019 results are joined on
    their `(ac_id, ps_no)` keys, and each key becomes one document update
    holding the years that have it. */
module Merge {
  import opened Wrappers
  import opened Text
  import opened Records
  import opened FixedLayout

  /** The fields of one document update: `electionYYYY` to that year's record. */
  type Update = map<string, Election>

  const Field2009 := "election2009"
  const Field2014 := "election2014"
  const Field2019 := "election2019"
  const Field2024 := "election2024"

  /** `f"{ac_id}-{ps_no}"`. */
  function DocId(acId: string, psNo: string): string {
    acId + "-" + psNo
  }

  /** The `update` dict built for one key, before the `if not update` test. */
  function UpdateFor(k: StationKey, d09: map<StationKey, Election>, d14: map<StationKey, Election>,
                     d19: map<StationKey, Election>): (u: Update)
    ensures Field2009 in u <==> k in d09
    ensures Field2014 in u <==> k in d14
    ensures Field2019 in u <==> k in d19
    ensures u.Keys <= {Field2009, Field2014, Field2019}
    ensures k in d09 ==> u[Field2009] == d09[k]
    ensures k in d14 ==> u[Field2014] == d14[k]
    ensures k in d19 ==> u[Field2019] == d19[k]
  {
    var u0: Update := map[];
    var u1 := if k in d09 then u0[Field2009 := d09[k]] else u0;
    var u2 := if k in d14 then u1[Field2014 := d14[k]] else u1;
    if k in d19 then u2[Field2019 := d19[k]] else u2
  }

  /** The update of a key present in some year: not empty, so the
      `if not update: continue` branch is never taken. */
  lemma UpdateForNonEmpty(k: StationKey, d09: map<StationKey, Election>, d14: map<StationKey, Election>,
                          d19: map<StationKey, Election>)
    requires k in d09 || k in d14 || k in d19
    ensures UpdateFor(k, d09, d14, d19) != map[]
  {
    var u := UpdateFor(k, d09, d14, d19);
    if k in d09 {
      assert Field2009 in u;
    } else if k in d14 {
      assert Field2014 in u;
    } else {
      assert Field2019 in u;
    }
  }

  /** One update per key of the union of the three years. Every update is
      non-empty and holds, for each year, that year's record of its key
      exactly when that year has the key, and nothing else. */
  function MergeUpdates(d09: map<StationKey, Election>, d14: map<StationKey, Election>,
                        d19: map<StationKey, Election>): (r: map<StationKey, Update>)
    ensures r.Keys == d09.Keys + d14.Keys + d19.Keys
    ensures forall k :: k in r ==> r[k] != map[]
    ensures forall k :: k in r ==> r[k].Keys <= {Field2009, Field2014, Field2019}
    ensures forall k :: k in r ==>
      && (Field2009 in r[k] <==> k in d09) && (k in d09 ==> r[k][Field2009] == d09[k])
      && (Field2014 in r[k] <==> k in d14) && (k in d14 ==> r[k][Field2014] == d14[k])
      && (Field2019 in r[k] <==> k in d19) && (k in d19 ==> r[k][Field2019] == d19[k])
  {
    var keys := d09.Keys + d14.Keys + d19.Keys;
    forall k | k in keys ensures UpdateFor(k, d09, d14, d19) != map[] {
      UpdateForNonEmpty(k, d09, d14, d19);
    }
    map k | k in keys :: UpdateFor(k, d09, d14, d19)
  }

  /** In a document id, the first `-` after position 0 is the separator. */
  lemma SeparatorPosition(a: string, b: string)
    requires IsIntString(a)
    ensures IndexOfFrom(DocId(a, b), "-", 1) == Some(|a|)
  {
    var s := DocId(a, b);
    assert OccursAt(s, "-", |a|) by {
      assert s[|a|..|a| + 1] == "-";
    }
    forall j | 1 <= j < |a| ensures !OccursAt(s, "-", j) {
      assert s[j..j + 1] == [a[j]];
    }
  }

  /** Document ids of keys whose parts are integer renderings are distinct for
      distinct keys. */
  lemma DocIdInjective(a1: string, b1: string, a2: string, b2: string)
    requires IsIntString(a1) && IsIntString(a2)
    requires DocId(a1, b1) == DocId(a2, b2)
    ensures a1 == a2 && b1 == b2
  {
    var s := DocId(a1, b1);
    SeparatorPosition(a1, b1);
    SeparatorPosition(a2, b2);
    assert |a1| == |a2|;
    assert a1 == s[..|a1|] == a2;
    assert b1 == s[|a1| + 1..] == b2;
  }

  /** Distinct merged keys write to distinct documents, so the order in which
      the updates are sent does not change what is stored. */
  lemma MergedDocIdsDistinct(L1: Layout, L2: Layout, L3: Layout, d09: map<StationKey, Election>,
                             d14: map<StationKey, Election>, d19: map<StationKey, Election>,
                             k1: StationKey, k2: StationKey)
    requires Valid(L1, d09) && Valid(L2, d14) && Valid(L3, d19)
    requires k1 in MergeUpdates(d09, d14, d19) && k2 in MergeUpdates(d09, d14, d19)
    requires DocId(k1.0, k1.1) == DocId(k2.0, k2.1)
    ensures k1 == k2
  {
    assert ValidKey(k1) && ValidKey(k2);
    DocIdInjective(k1.0, k1.1, k2.0, k2.1);
  }
}
