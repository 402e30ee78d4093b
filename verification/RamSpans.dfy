/**
 Physical RAM accounting of a linked ESP32-C6 image, done twice by the repository: the
 inventory collects the non-empty sections of each RAM region, the resource verifier
 measures the span of each region directly from the section list.
 */
module RamSpans {
  import opened Common
  import opened ElfSections

  datatype Region = Region(origin: nat, length: nat) {
    function End(): nat {
      origin + length
    }

    predicate Holds(s: Section) {
      origin <= s.address < End()
    }
  }

  datatype Report = Report(sections: seq<Section>, linkedSpan: nat, sectionBytes: nat)

  // ----- Sections of a region ----------------------------------------------------

  /** The section is allocated and its first byte lies in the region. */
  predicate StartsIn(s: Section, r: Region) {
    (s.flags % 4 == 2 || s.flags % 4 == 3) && r.origin <= s.address < r.origin + r.length
  }

  predicate Counted(r: Region, s: Section) {
    s.Alloc() && s.size > 0 && r.Holds(s)
  }

  /** The non-empty allocated sections that start in a region, in file order. */
  function SectionsOf(sections: seq<Section>, r: Region): seq<Section> {
    if sections == [] then []
    else
      var last := sections[|sections| - 1];
      SectionsOf(sections[..|sections| - 1], r) + if Counted(r, last) then [last] else []
  }

  lemma {:induction false} SectionsOfExactly(sections: seq<Section>, r: Region)
    ensures forall s :: s in SectionsOf(sections, r) <==> s in sections && StartsIn(s, r) && s.size > 0
  {
    if sections != [] {
      SectionsOfExactly(sections[..|sections| - 1], r);
      assert sections == sections[..|sections| - 1] + [sections[|sections| - 1]];
    }
  }

  function MaxEnd(sections: seq<Section>, origin: nat): (end: nat)
    ensures end >= origin
  {
    if sections == [] then origin
    else Max(MaxEnd(sections[..|sections| - 1], origin), sections[|sections| - 1].End())
  }

  function Bytes(sections: seq<Section>): nat {
    if sections == [] then 0 else Bytes(sections[..|sections| - 1]) + sections[|sections| - 1].size
  }

  function ReportOf(sections: seq<Section>, r: Region): Report {
    var found := SectionsOf(sections, r);
    Report(found, MaxEnd(found, r.origin) - r.origin, Bytes(found))
  }

  /** No non-empty section that starts in a region crosses its end. */
  ghost predicate Fits(sections: seq<Section>, regions: seq<Region>) {
    forall s, i :: s in sections && 0 <= i < |regions| && StartsIn(s, regions[i]) && s.size > 0 ==>
      s.address + s.size <= regions[i].origin + regions[i].length
  }

  /** Places one section into every region it starts in; false if it crosses a boundary. */
  method Place(s: Section, regions: seq<Region>, found: seq<seq<Section>>)
    returns (ok: bool, next: seq<seq<Section>>)
    requires |found| == |regions| && s.Alloc() && s.size > 0
    ensures ok <==> forall i :: 0 <= i < |regions| && StartsIn(s, regions[i]) ==>
      s.address + s.size <= regions[i].origin + regions[i].length
    ensures ok ==> |next| == |regions|
    ensures ok ==> forall i :: 0 <= i < |regions| ==>
      next[i] == found[i] + if StartsIn(s, regions[i]) then [s] else []
  {
    next := found;
    for k := 0 to |regions|
      invariant |next| == |regions|
      invariant forall i :: 0 <= i < k && regions[i].Holds(s) ==> s.End() <= regions[i].End()
      invariant forall i :: 0 <= i < k ==> next[i] == found[i] + if regions[i].Holds(s) then [s] else []
      invariant forall i :: k <= i < |regions| ==> next[i] == found[i]
    {
      if regions[k].origin <= s.address < regions[k].End() {
        if s.End() > regions[k].End() {
          return false, next;
        }
        next := next[k := next[k] + [s]];
      }
    }
    return true, next;
  }

  /** Sorts the sections into the regions they start in. */
  method Collect(sections: seq<Section>, regions: seq<Region>) returns (ok: bool, found: seq<seq<Section>>)
    ensures ok <==> Fits(sections, regions)
    ensures ok ==> |found| == |regions|
    ensures ok ==> forall i :: 0 <= i < |regions| ==> found[i] == SectionsOf(sections, regions[i])
  {
    found := seq(|regions|, _ => []);
    for k := 0 to |sections|
      invariant |found| == |regions|
      invariant Fits(sections[..k], regions)
      invariant forall i :: 0 <= i < |regions| ==> found[i] == SectionsOf(sections[..k], regions[i])
    {
      var s := sections[k];
      assert sections[..k + 1][..k] == sections[..k];
      assert sections[..k + 1] == sections[..k] + [s];
      if s.Alloc() && s.size > 0 {
        var placed, next := Place(s, regions, found);
        if !placed {
          assert s in sections;
          return false, found;
        }
        found := next;
      }
    }
    assert sections[..|sections|] == sections;
    return true, found;
  }

  /** One region's span and byte count. */
  method Summarize(found: seq<Section>, origin: nat) returns (span: nat, bytes: nat)
    ensures span == MaxEnd(found, origin) - origin && bytes == Bytes(found)
  {
    var end := origin;
    bytes := 0;
    for j := 0 to |found|
      invariant end == MaxEnd(found[..j], origin) && bytes == Bytes(found[..j])
    {
      assert found[..j + 1][..j] == found[..j];
      end := Max(end, found[j].End());
      bytes := bytes + found[j].size;
    }
    assert found[..|found|] == found;
    span := end - origin;
  }

  /** The inventory: one report per region, or nothing if a section crosses a boundary. */
  method Inventory(sections: seq<Section>, regions: seq<Region>) returns (reports: Option<seq<Report>>)
    ensures reports.Some? <==> Fits(sections, regions)
    ensures reports.Some? ==> |reports.value| == |regions|
    ensures reports.Some? ==> forall i :: 0 <= i < |regions| ==> reports.value[i] == ReportOf(sections, regions[i])
  {
    var ok, found := Collect(sections, regions);
    if !ok {
      return None;
    }
    var result: seq<Report> := [];
    for i := 0 to |regions|
      invariant |result| == i
      invariant forall j :: 0 <= j < i ==> result[j] == ReportOf(sections, regions[j])
    {
      var span, bytes := Summarize(found[i], regions[i].origin);
      result := result + [Report(found[i], span, bytes)];
    }
    return Some(result);
  }

  // ----- The verifier's own measurements -----------------------------------------

  /** The allocated sections that start in a region, empty ones included. */
  function Started(sections: seq<Section>, r: Region): seq<Section> {
    if sections == [] then []
    else
      var last := sections[|sections| - 1];
      Started(sections[..|sections| - 1], r) + if last.Alloc() && r.Holds(last) then [last] else []
  }

  /** The sections the general region measurement counts: those that also end inside. */
  function Contained(sections: seq<Section>, r: Region): seq<Section> {
    if sections == [] then []
    else
      var last := sections[|sections| - 1];
      Contained(sections[..|sections| - 1], r)
      + if last.Alloc() && r.Holds(last) && last.End() <= r.End() then [last] else []
  }

  lemma {:induction false} StartedExactly(sections: seq<Section>, r: Region)
    ensures forall s :: s in Started(sections, r) <==> s in sections && StartsIn(s, r)
  {
    if sections != [] {
      StartedExactly(sections[..|sections| - 1], r);
      assert sections == sections[..|sections| - 1] + [sections[|sections| - 1]];
    }
  }

  lemma {:induction false} ContainedExactly(sections: seq<Section>, r: Region)
    ensures forall s :: s in Contained(sections, r) <==>
      s in sections && StartsIn(s, r) && s.address + s.size <= r.origin + r.length
  {
    if sections != [] {
      ContainedExactly(sections[..|sections| - 1], r);
      assert sections == sections[..|sections| - 1] + [sections[|sections| - 1]];
    }
  }

  function MeasuredSpan(sections: seq<Section>, r: Region): nat {
    MaxEnd(Started(sections, r), r.origin) - r.origin
  }

  function RegionUsage(sections: seq<Section>, r: Region): nat {
    MaxEnd(Contained(sections, r), r.origin) - r.origin
  }

  function LinkedSpan(sections: seq<Section>, r: Region): nat {
    ReportOf(sections, r).linkedSpan
  }

  function SumMeasured(sections: seq<Section>, regions: seq<Region>): nat {
    if regions == [] then 0
    else SumMeasured(sections, regions[..|regions| - 1]) + MeasuredSpan(sections, regions[|regions| - 1])
  }

  function SumLinked(sections: seq<Section>, regions: seq<Region>): nat {
    if regions == [] then 0
    else SumLinked(sections, regions[..|regions| - 1]) + LinkedSpan(sections, regions[|regions| - 1])
  }

  /** The end of the last section that starts in a region. */
  method MeasureRegion(sections: seq<Section>, r: Region) returns (end: nat)
    ensures end == MaxEnd(Started(sections, r), r.origin)
  {
    end := r.origin;
    for k := 0 to |sections|
      invariant end == MaxEnd(Started(sections[..k], r), r.origin)
    {
      var s := sections[k];
      ghost var before := Started(sections[..k], r);
      assert sections[..k + 1][..k] == sections[..k];
      if s.Alloc() && r.origin <= s.address < r.End() {
        assert (before + [s])[..|before|] == before;
        end := Max(end, s.End());
      } else {
        assert before + [] == before;
      }
    }
    assert sections[..|sections|] == sections;
  }

  /** The verifier's RAM total, region by region. */
  method MeasureLinked(sections: seq<Section>, regions: seq<Region>) returns (ramBytes: nat)
    ensures ramBytes == SumMeasured(sections, regions)
  {
    ramBytes := 0;
    for i := 0 to |regions|
      invariant ramBytes == SumMeasured(sections, regions[..i])
    {
      var end := MeasureRegion(sections, regions[i]);
      assert regions[..i + 1][..i] == regions[..i];
      ramBytes := ramBytes + (end - regions[i].origin);
    }
    assert regions[..|regions|] == regions;
  }

  // ----- The greatest end --------------------------------------------------------

  /** `MaxEnd` is the least bound on the origin and every section's end. */
  lemma {:induction false} MaxEndExactly(sections: seq<Section>, origin: nat)
    ensures forall s :: s in sections ==> s.address + s.size <= MaxEnd(sections, origin)
    ensures MaxEnd(sections, origin) == origin
         || exists s :: s in sections && s.address + s.size == MaxEnd(sections, origin)
  {
    if sections != [] {
      var shorter, last := sections[..|sections| - 1], sections[|sections| - 1];
      assert sections == shorter + [last];
      MaxEndExactly(shorter, origin);
      if MaxEnd(sections, origin) != origin && MaxEnd(sections, origin) != last.End() {
        var s :| s in shorter && s.End() == MaxEnd(shorter, origin);
        assert s in sections;
      }
    }
  }

  lemma MaxEndMonotone(a: seq<Section>, b: seq<Section>, origin: nat)
    requires forall s :: s in a ==> s in b
    ensures MaxEnd(a, origin) <= MaxEnd(b, origin)
  {
    MaxEndExactly(a, origin);
    MaxEndExactly(b, origin);
  }

  /** The greatest distance of a section's end from the origin, among the chosen ones; 0 if there is none. */
  ghost predicate IsSpan(sections: seq<Section>, chosen: Section -> bool, origin: nat, span: nat) {
    && (forall s :: s in sections && chosen(s) ==> s.address + s.size <= origin + span)
    && (span == 0 || exists s :: s in sections && chosen(s) && s.address + s.size == origin + span)
  }

  lemma LinkedSpanExactly(sections: seq<Section>, r: Region)
    ensures IsSpan(sections, s => StartsIn(s, r) && s.size > 0, r.origin, LinkedSpan(sections, r))
  {
    SectionsOfExactly(sections, r);
    MaxEndExactly(SectionsOf(sections, r), r.origin);
  }

  lemma MeasuredSpanExactly(sections: seq<Section>, r: Region)
    ensures IsSpan(sections, s => StartsIn(s, r), r.origin, MeasuredSpan(sections, r))
  {
    StartedExactly(sections, r);
    MaxEndExactly(Started(sections, r), r.origin);
  }

  lemma RegionUsageExactly(sections: seq<Section>, r: Region)
    ensures IsSpan(sections, s => StartsIn(s, r) && s.address + s.size <= r.origin + r.length, r.origin,
                   RegionUsage(sections, r))
  {
    ContainedExactly(sections, r);
    MaxEndExactly(Contained(sections, r), r.origin);
  }

  /** No empty section starts past the last counted byte of the region. */
  ghost predicate NoEmptyPastEnd(sections: seq<Section>, r: Region) {
    forall s :: s in sections && StartsIn(s, r) && s.size == 0 ==>
      s.address <= r.origin + LinkedSpan(sections, r)
  }

  /**
   The verifier never measures less than the inventory, and measures the same exactly
   when no empty allocated section starts past the region's last counted byte.
   */
  lemma MeasuredAgainstLinked(sections: seq<Section>, r: Region)
    ensures LinkedSpan(sections, r) <= MeasuredSpan(sections, r)
    ensures MeasuredSpan(sections, r) == LinkedSpan(sections, r) <==> NoEmptyPastEnd(sections, r)
  {
    var counted, started := SectionsOf(sections, r), Started(sections, r);
    SectionsOfExactly(sections, r);
    StartedExactly(sections, r);
    MaxEndMonotone(counted, started, r.origin);
    MaxEndExactly(counted, r.origin);
    MaxEndExactly(started, r.origin);
    if NoEmptyPastEnd(sections, r) && MaxEnd(started, r.origin) != r.origin {
      var s :| s in started && s.End() == MaxEnd(started, r.origin);
      assert s.size > 0 ==> s in counted;
    }
  }

  /** `NoEmptyPastEnd` region by region. */
  ghost predicate AllTight(sections: seq<Section>, regions: seq<Region>) {
    regions != [] ==>
      AllTight(sections, regions[..|regions| - 1]) && NoEmptyPastEnd(sections, regions[|regions| - 1])
  }

  lemma {:induction false} AllTightExactly(sections: seq<Section>, regions: seq<Region>)
    ensures AllTight(sections, regions) <==> forall i :: 0 <= i < |regions| ==> NoEmptyPastEnd(sections, regions[i])
  {
    if regions != [] {
      var earlier := regions[..|regions| - 1];
      AllTightExactly(sections, earlier);
      assert forall i :: 0 <= i < |earlier| ==> earlier[i] == regions[i];
    }
  }

  /** The same over the sum of all regions. */
  lemma {:induction false} TotalsCompare(sections: seq<Section>, regions: seq<Region>)
    ensures SumLinked(sections, regions) <= SumMeasured(sections, regions)
    ensures SumMeasured(sections, regions) == SumLinked(sections, regions) <==> AllTight(sections, regions)
  {
    if regions != [] {
      TotalsCompare(sections, regions[..|regions| - 1]);
      MeasuredAgainstLinked(sections, regions[|regions| - 1]);
    }
  }

  /** In an accepted image no span exceeds its region, and all three measurements agree on fit. */
  lemma AcceptedSpansFit(sections: seq<Section>, regions: seq<Region>, i: nat)
    requires Fits(sections, regions) && i < |regions|
    ensures LinkedSpan(sections, regions[i]) <= regions[i].length
    ensures MeasuredSpan(sections, regions[i]) <= regions[i].length
    ensures RegionUsage(sections, regions[i]) == MeasuredSpan(sections, regions[i])
  {
    var r := regions[i];
    var counted, started, contained := SectionsOf(sections, r), Started(sections, r), Contained(sections, r);
    SectionsOfExactly(sections, r);
    StartedExactly(sections, r);
    ContainedExactly(sections, r);
    MaxEndExactly(counted, r.origin);
    MaxEndExactly(started, r.origin);
    assert forall s :: s in started ==> s.End() <= r.End();
    MaxEndMonotone(started, contained, r.origin);
    MaxEndMonotone(contained, started, r.origin);
  }

  // ----- Disjoint sections -------------------------------------------------------

  predicate Apart(s: Section, t: Section) {
    s.End() <= t.address || t.End() <= s.address
  }

  ghost predicate Disjoint(sections: seq<Section>) {
    forall i, j :: 0 <= i < j < |sections| ==> Apart(sections[i], sections[j])
  }

  function Without(sections: seq<Section>, k: nat): seq<Section>
    requires k < |sections|
  {
    sections[..k] + sections[k + 1..]
  }

  lemma {:induction false} BytesWithout(sections: seq<Section>, k: nat)
    requires k < |sections|
    ensures Bytes(sections) == Bytes(Without(sections, k)) + sections[k].size
  {
    var front := sections[..|sections| - 1];
    if k == |front| {
      assert Without(sections, k) == front;
    } else {
      BytesWithout(front, k);
      assert Without(sections, k)[..|front| - 1] == Without(front, k);
    }
  }

  /** Non-empty, pairwise disjoint sections fill no more than the range they lie in. */
  lemma {:induction false} DisjointBytes(sections: seq<Section>, low: nat, high: nat)
    requires Disjoint(sections) && low <= high
    requires forall i :: 0 <= i < |sections| ==>
      low <= sections[i].address && sections[i].size > 0 && sections[i].End() <= high
    ensures Bytes(sections) <= high - low
    decreases |sections|
  {
    if sections != [] {
      var k := LastEnding(sections);
      var top, rest := sections[k], Without(sections, k);
      forall i | 0 <= i < |rest|
        ensures rest[i].End() <= top.address && low <= rest[i].address && rest[i].size > 0
      {
        var j := if i < k then i else i + 1;
        assert rest[i] == sections[j];
        assert Apart(sections[j], top);
      }
      WithoutDisjoint(sections, k);
      DisjointBytes(rest, low, top.address);
      BytesWithout(sections, k);
    }
  }

  lemma WithoutDisjoint(sections: seq<Section>, k: nat)
    requires Disjoint(sections) && k < |sections|
    ensures Disjoint(Without(sections, k))
  {
    var rest := Without(sections, k);
    forall i, j | 0 <= i < j < |rest|
      ensures Apart(rest[i], rest[j])
    {
      assert rest[i] == sections[if i < k then i else i + 1];
      assert rest[j] == sections[if j < k then j else j + 1];
    }
  }

  lemma LastEnding(sections: seq<Section>) returns (k: nat)
    requires sections != []
    ensures k < |sections| && forall i :: 0 <= i < |sections| ==> sections[i].End() <= sections[k].End()
  {
    k := 0;
    for j := 1 to |sections|
      invariant k < |sections| && forall i :: 0 <= i < j ==> sections[i].End() <= sections[k].End()
    {
      if sections[j].End() > sections[k].End() {
        k := j;
      }
    }
  }

  // ----- Bytes as addresses ------------------------------------------------------

  predicate Covers(s: Section, x: nat) {
    s.address <= x < s.address + s.size
  }

  ghost function AddressesOf(s: Section): set<nat> {
    set x: nat | x < s.address + s.size && Covers(s, x)
  }

  /** Every address a section occupies. */
  ghost function Occupied(sections: seq<Section>): set<nat> {
    if sections == [] then {}
    else Occupied(sections[..|sections| - 1]) + AddressesOf(sections[|sections| - 1])
  }

  lemma {:induction false} OccupiedExactly(sections: seq<Section>, x: nat)
    ensures x in Occupied(sections) <==> exists s :: s in sections && Covers(s, x)
  {
    if sections != [] {
      OccupiedExactly(sections[..|sections| - 1], x);
      assert sections == sections[..|sections| - 1] + [sections[|sections| - 1]];
    }
  }

  lemma {:induction false} AddressesCounted(s: Section)
    ensures |AddressesOf(s)| == s.size
    decreases s.size
  {
    if s.size == 0 {
      assert AddressesOf(s) == {};
    } else {
      var shorter := s.(size := s.size - 1);
      AddressesCounted(shorter);
      assert AddressesOf(s) == AddressesOf(shorter) + {s.address + s.size - 1};
    }
  }

  lemma UnionCounted(a: set<nat>, b: set<nat>)
    requires a !! b
    ensures |a + b| == |a| + |b|
  {
  }

  /** A section apart from all others occupies none of their addresses. */
  lemma OccupiedGrows(sections: seq<Section>, t: Section)
    requires forall i :: 0 <= i < |sections| ==> Apart(sections[i], t)
    ensures |Occupied(sections) + AddressesOf(t)| == |Occupied(sections)| + t.size
  {
    forall x | x in AddressesOf(t)
      ensures x !in Occupied(sections)
    {
      OccupiedExactly(sections, x);
    }
    UnionCounted(Occupied(sections), AddressesOf(t));
    AddressesCounted(t);
  }

  /** The bytes of disjoint sections are the addresses they occupy, each counted once. */
  lemma {:induction false} BytesAreAddresses(sections: seq<Section>)
    requires Disjoint(sections)
    ensures Bytes(sections) == |Occupied(sections)|
  {
    if sections != [] {
      var shorter, last := sections[..|sections| - 1], sections[|sections| - 1];
      BytesAreAddresses(shorter);
      OccupiedGrows(shorter, last);
    }
  }

  /** If a region's sections are disjoint, their bytes are the addresses they occupy and fit the span. */
  lemma BytesWithinSpan(sections: seq<Section>, regions: seq<Region>, i: nat)
    requires Fits(sections, regions) && i < |regions| && Disjoint(SectionsOf(sections, regions[i]))
    ensures var report := ReportOf(sections, regions[i]);
      && report.sectionBytes == |Occupied(SectionsOf(sections, regions[i]))|
      && report.sectionBytes <= report.linkedSpan <= regions[i].length
  {
    var r := regions[i];
    var found := SectionsOf(sections, r);
    SectionsOfExactly(sections, r);
    MaxEndExactly(found, r.origin);
    forall j | 0 <= j < |found|
      ensures r.origin <= found[j].address && found[j].size > 0 && found[j].End() <= MaxEnd(found, r.origin)
    {
      assert found[j] in found;
    }
    DisjointBytes(found, r.origin, MaxEnd(found, r.origin));
    AcceptedSpansFit(sections, regions, i);
    BytesAreAddresses(found);
  }
}
