/** The vacation-destination picker: a fixed catalog and a one-field
    memory of the last destination handed out, so that the agent never
    proposes the same place twice in a row when another one exists. */
module Destinations {
  import opened Wrappers
  import opened Lists

  /** The ten destinations every picker is built with, in order. */
  const Catalog: seq<string> := [
    "Barcelona, Spain",
    "Paris, France",
    "Berlin, Germany",
    "Tokyo, Japan",
    "Sydney, Australia",
    "New York, USA",
    "Cairo, Egypt",
    "Cape Town, South Africa",
    "Rio de Janeiro, Brazil",
    "Bali, Indonesia"
  ]

  /** Python truthiness of an optional string: `None` and `""` are false. */
  predicate Truthy(o: Option<string>) {
    o.Some? && o.value != ""
  }

  /** The copy of the catalog with the last pick excluded "if possible":
      only when the last pick is truthy and more than one entry exists.
      `None` stands for the `ValueError` of removing an absent value. */
  function Eligible(catalog: seq<string>, last: Option<string>): (r: Option<seq<string>>)
    ensures r.None? <==> Truthy(last) && |catalog| > 1 && last.value !in catalog
    ensures r.Some? && Truthy(last) && |catalog| > 1 ==>
      |r.value| == |catalog| - 1 &&
      multiset(r.value) == multiset(catalog) - multiset{last.value}
    ensures !(Truthy(last) && |catalog| > 1) ==> r == Some(catalog)
  {
    if Truthy(last) && |catalog| > 1 then RemoveFirst(catalog, last.value)
    else Some(catalog)
  }

  /** Every entry is a non-empty string, so truthiness is "is set". */
  predicate NonEmptyEntries(catalog: seq<string>) {
    forall i :: 0 <= i < |catalog| ==> catalog[i] != ""
  }

  /** The fixed catalog has ten distinct, non-empty entries. */
  lemma CatalogWellFormed()
    ensures |Catalog| == 10 && Distinct(Catalog) && NonEmptyEntries(Catalog)
  {
  }

  /** For a previous pick taken from the catalog, truthiness and "is set"
      agree. */
  lemma TruthyIsSet(catalog: seq<string>, last: Option<string>)
    requires NonEmptyEntries(catalog)
    requires last.Some? ==> last.value in catalog
    ensures Truthy(last) <==> last.Some?
  {
    if last.Some? {
      var i :| 0 <= i < |catalog| && catalog[i] == last.value;
    }
  }

  /** Eligible entries always come from the catalog, and there is at least
      one whenever the catalog is non-empty and the removal succeeds. */
  lemma EligibleWithinCatalog(catalog: seq<string>, last: Option<string>)
    requires |catalog| > 0 && Eligible(catalog, last).Some?
    ensures |Eligible(catalog, last).value| > 0
    ensures forall y :: y in Eligible(catalog, last).value ==> y in catalog
  {
    var r := Eligible(catalog, last).value;
    forall y | y in r
      ensures y in catalog
    {
      assert multiset(r)[y] > 0;
      assert multiset(catalog)[y] > 0;
    }
  }

  /** The eligible entries are exactly the catalog minus the last pick when
      exclusion applies, for a duplicate-free catalog holding that pick. */
  lemma EligibleExactly(catalog: seq<string>, last: Option<string>)
    requires Distinct(catalog) && NonEmptyEntries(catalog)
    requires last.Some? ==> last.value in catalog
    ensures Eligible(catalog, last).Some?
    ensures forall y :: y in Eligible(catalog, last).value <==>
      y in catalog && !(last.Some? && |catalog| > 1 && y == last.value)
  {
    TruthyIsSet(catalog, last);
    if last.Some? && |catalog| > 1 {
      RemoveFirstDistinct(catalog, last.value);
    }
  }

  /** When exclusion applies, the eligible copy is the catalog with the
      first occurrence of the last pick cut out and nothing else changed. */
  lemma EligibleCut(catalog: seq<string>, last: Option<string>, i: nat)
    requires Truthy(last) && |catalog| > 1
    requires i < |catalog| && catalog[i] == last.value && last.value !in catalog[..i]
    ensures Eligible(catalog, last) == Some(catalog[..i] + catalog[i + 1..])
  {
    RemoveFirstAt(catalog, last.value, i);
  }

  /** On the first call nothing has been picked yet: every entry is
      eligible. */
  lemma FirstCallAllEligible(catalog: seq<string>)
    ensures Eligible(catalog, None) == Some(catalog)
  {
  }

  /** A one-entry catalog never excludes: whatever the previous pick, the
      only eligible value is that entry, so it repeats. */
  lemma SingleEntryRepeats(catalog: seq<string>, last: Option<string>, k: nat)
    requires |catalog| == 1 && k < |Eligible(catalog, last).value|
    ensures Eligible(catalog, last) == Some(catalog)
    ensures Eligible(catalog, last).value[k] == catalog[0]
  {
  }

  /** `picks` is a possible sequence of answers from consecutive calls,
      starting with `last` as the previous pick: each answer is eligible
      given the answer before it. */
  predicate IsRun(catalog: seq<string>, last: Option<string>, picks: seq<string>)
    decreases |picks|
  {
    picks == [] ||
    (Eligible(catalog, last).Some? && picks[0] in Eligible(catalog, last).value &&
     IsRun(catalog, Some(picks[0]), picks[1..]))
  }

  /** However many calls are made on a catalog of two or more distinct
      entries, every answer is an entry, no answer repeats the one before
      it, and the first differs from the pick that preceded the run. */
  lemma {:induction false} RunNeverRepeats(catalog: seq<string>, last: Option<string>, picks: seq<string>)
    requires Distinct(catalog) && NonEmptyEntries(catalog) && |catalog| > 1
    requires last.Some? ==> last.value in catalog
    requires IsRun(catalog, last, picks)
    ensures forall i :: 0 <= i < |picks| ==> picks[i] in catalog
    ensures forall i :: 0 < i < |picks| ==> picks[i] != picks[i - 1]
    ensures |picks| > 0 && last.Some? ==> picks[0] != last.value
    decreases |picks|
  {
    if picks != [] {
      EligibleExactly(catalog, last);
      RunNeverRepeats(catalog, Some(picks[0]), picks[1..]);
      forall i | 0 < i < |picks|
        ensures picks[i] != picks[i - 1]
      {
        if i > 1 {
          assert picks[i] == picks[1..][i - 1] && picks[i - 1] == picks[1..][i - 2];
        }
      }
      forall i | 0 < i < |picks|
        ensures picks[i] in catalog
      {
        assert picks[i] == picks[1..][i - 1];
      }
    }
  }

  /** With a one-entry catalog every call, however many, answers that
      entry. */
  lemma {:induction false} RunOfSingleEntry(catalog: seq<string>, last: Option<string>, picks: seq<string>)
    requires |catalog| == 1 && IsRun(catalog, last, picks)
    ensures forall i :: 0 <= i < |picks| ==> picks[i] == catalog[0]
    decreases |picks|
  {
    if picks != [] {
      RunOfSingleEntry(catalog, Some(picks[0]), picks[1..]);
      forall i | 0 < i < |picks|
        ensures picks[i] == catalog[0]
      {
        assert picks[i] == picks[1..][i - 1];
      }
    }
  }

  class DestinationsPlugin {
    /** Assigned once by the constructor and never again. */
    const destinations: seq<string>
    var lastDestination: Option<string>

    /** The catalog is non-empty, duplicate-free, made of non-empty
        strings, and the last pick (if any) is one of its entries. */
    ghost predicate Valid()
      reads this
    {
      |destinations| > 0 && Distinct(destinations) && NonEmptyEntries(destinations) &&
      (lastDestination.Some? ==> lastDestination.value in destinations)
    }

    constructor ()
      ensures Valid()
      ensures destinations == Catalog && lastDestination == None
    {
      destinations := Catalog;
      lastDestination := None;
      CatalogWellFormed();
    }

    /** Copy the catalog, drop the last pick from the copy when that is
        possible, choose any remaining entry (the random choice is left
        open: every index is allowed) and remember it. */
    method GetRandomDestination() returns (destination: string)
      requires Valid()
      modifies this`lastDestination
      ensures Valid()
      ensures lastDestination == Some(destination)
      ensures Eligible(destinations, old(lastDestination)).Some?
      ensures destination in Eligible(destinations, old(lastDestination)).value
      ensures destination in destinations
      ensures old(lastDestination).Some? && |destinations| > 1 ==>
        destination != old(lastDestination).value
      ensures |destinations| == 1 ==> destination == destinations[0]
    {
      var available := destinations;
      if Truthy(lastDestination) && |available| > 1 {
        var removed := RemoveFirst(available, lastDestination.value);
        available := removed.value;
      }
      assert Some(available) == Eligible(destinations, lastDestination);
      EligibleWithinCatalog(destinations, lastDestination);
      EligibleExactly(destinations, lastDestination);
      var k :| 0 <= k < |available|;
      destination := available[k];
      lastDestination := Some(destination);
    }
  }

  /** Consecutive calls on any valid plugin produce a run in the sense of
      `IsRun`, so the run lemmas speak about the method's answers. */
  method ThreeCalls(p: DestinationsPlugin) returns (a: string, b: string, c: string)
    requires p.Valid()
    modifies p
    ensures p.Valid()
    ensures p.lastDestination == Some(c)
    ensures IsRun(p.destinations, old(p.lastDestination), [a, b, c])
  {
    a := p.GetRandomDestination();
    b := p.GetRandomDestination();
    c := p.GetRandomDestination();
    assert IsRun(p.destinations, Some(c), []);
    assert [c][1..] == [];
    assert IsRun(p.destinations, Some(b), [c]);
    assert [b, c][1..] == [c];
    assert IsRun(p.destinations, Some(a), [b, c]);
    assert [a, b, c][1..] == [b, c];
  }

  /** Two consecutive calls on a freshly built plugin: both answers come
      from the catalog and the second differs from the first. */
  method TwoTurns() returns (first: string, second: string)
    ensures first in Catalog && second in Catalog
    ensures first != second
  {
    var plugin := new DestinationsPlugin();
    first := plugin.GetRandomDestination();
    second := plugin.GetRandomDestination();
  }
}
