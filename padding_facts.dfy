/**
  What `_pad_ranks` makes of whole lineages: when it fails for want of a label,
  that a gap-free lineage (with its strains) comes back verbatim, and how the
  kingdom mirror and the `containing` placeholders fill gaps.
 */
module PaddingFacts {
  import opened Wrappers
  import opened Text
  import opened Padding

  /** The eight rank codes are distinct single letters without underscores. */
  lemma CodesDistinct()
    ensures forall q, j | 0 <= q < 8 && 0 <= j < 8 && Code(q) == Code(j) :: q == j
    ensures forall q | 0 <= q < 8 :: |Code(q)| == 1 && Code(q)[0] != '_'
  {
    forall q, j | 0 <= q < 8 && 0 <= j < 8 && Code(q) == Code(j) ensures q == j {
      assert Code(q)[0] == Code(j)[0];
    }
  }

  /** An entry written as `code__label` with a code free of underscores splits into them. */
  lemma EntrySplits(code: string, text: string)
    requires forall k :: 0 <= k < |code| ==> code[k] != '_'
    ensures HasSeparator(code + "__" + text)
    ensures Key(code + "__" + text) == code && Label(code + "__" + text) == text
  {
    SplitJoin(code, text);
  }

  /** `UnboundLocalError` is raised exactly when every entry is separated, some entry is a
      strain and no entry is a species. */
  lemma UnboundLabelIff(ranks: seq<string>)
    ensures PadSpec(ranks) == Failure(UnboundLabel) <==>
              && AllSeparated(ranks)
              && (exists j | 0 <= j < |ranks| :: IsStrainKey(Key(ranks[j])))
              && (forall j | 0 <= j < |ranks| :: Key(ranks[j]) != "s")
  {
    if AllSeparated(ranks) {
      AvailableKeys(ranks);
      StrainsMembers(ranks);
      var strains := Strains(ranks);
      if strains != [] {
        assert strains[0] in strains;
        var j :| 0 <= j < |ranks| && ranks[j] == strains[0];
        assert IsStrainKey(Key(ranks[j]));
      }
      if j :| 0 <= j < |ranks| && IsStrainKey(Key(ranks[j])) {
        assert ranks[j] in strains;
      }
    }
  }

  // ---------------------------------------------------------------------------
  // Gap-free lineages.

  /** `code__label` for the first `|labels|` ranks of the order, general to specific. */
  function Lineage(labels: seq<string>): (r: seq<string>)
    requires |labels| <= 8
    ensures |r| == |labels|
    ensures forall q | 0 <= q < |r| :: r[q] == Code(q) + "__" + labels[q]
  {
    seq(|labels|, q requires 0 <= q < |labels| => Code(q) + "__" + labels[q])
  }

  /** Strain entries: separated, with a strain rank code. */
  predicate StrainEntries(strains: seq<string>) {
    forall j | 0 <= j < |strains| :: HasSeparator(strains[j]) && IsStrainKey(Key(strains[j]))
  }

  lemma {:induction false} StrainsAppend(a: seq<string>, b: seq<string>)
    requires AllSeparated(a) && AllSeparated(b)
    ensures AllSeparated(a + b) && Strains(a + b) == Strains(a) + Strains(b)
  {
    if a != [] {
      assert (a + b)[1..] == a[1..] + b;
      StrainsAppend(a[1..], b);
    } else {
      assert a + b == b;
    }
  }

  lemma {:induction false} StrainsOfStrains(strains: seq<string>)
    requires StrainEntries(strains)
    ensures AllSeparated(strains) && Strains(strains) == strains
  {
    if strains != [] {
      StrainsOfStrains(strains[1..]);
      assert [strains[0]] + strains[1..] == strains;
    }
  }

  lemma LineageNoStrains(labels: seq<string>)
    requires |labels| <= 8
    ensures AllSeparated(Lineage(labels)) && Strains(Lineage(labels)) == []
  {
    var ranks := Lineage(labels);
    CodesDistinct();
    forall q | 0 <= q < |ranks| ensures HasSeparator(ranks[q]) && Key(ranks[q]) == Code(q) {
      EntrySplits(Code(q), labels[q]);
    }
    var s := Strains(ranks);
    assert s != [] ==> s[0] in s;
    StrainsMembers(ranks);
  }

  /** The dictionary built from a gap-free lineage followed by strain entries: the codes of
      the lineage's ranks, each with its own label. */
  lemma LineageAvailable(labels: seq<string>, strains: seq<string>)
    requires |labels| <= 8 && StrainEntries(strains)
    ensures AllSeparated(Lineage(labels) + strains)
    ensures forall q | 0 <= q < 8 :: Code(q) in Available(Lineage(labels) + strains) <==> q < |labels|
    ensures forall q | 0 <= q < |labels| :: Available(Lineage(labels) + strains)[Code(q)] == labels[q]
  {
    var lineage := Lineage(labels);
    var ranks := lineage + strains;
    LineageNoStrains(labels);
    StrainsOfStrains(strains);
    StrainsAppend(lineage, strains);
    CodesDistinct();
    forall q | 0 <= q < |labels| ensures Key(ranks[q]) == Code(q) && Label(ranks[q]) == labels[q] {
      EntrySplits(Code(q), labels[q]);
    }
    AvailableKeys(ranks);
    forall q | 0 <= q < 8 ensures Code(q) in Available(ranks) <==> q < |labels| {
      if Code(q) in Available(ranks) {
        var j :| 0 <= j < |ranks| && Key(ranks[j]) == Code(q);
        if j >= |labels| {
          assert false;
        }
      }
      if q < |labels| {
        assert Key(ranks[q]) == Code(q);
      }
    }
    forall q | 0 <= q < |labels| ensures Available(ranks)[Code(q)] == labels[q] {
      AvailableFirst(ranks, q);
    }
  }

  /** With every rank before `n` present and none from `n` on, the slots are the rendered
      present ranks. */
  lemma {:induction false} EmittedPrefix(avail: map<string, string>, strains: bool, labels: seq<string>, p: nat)
    requires |labels| <= 8 && p <= 8 && (strains ==> |labels| == 8)
    requires forall q | 0 <= q < 8 :: Code(q) in avail <==> q < |labels|
    requires forall q | 0 <= q < |labels| :: avail[Code(q)] == labels[q]
    ensures p <= |labels| ==> Emitted(avail, strains, p) == Lineage(labels)[p..]
    ensures p >= |labels| ==> Emitted(avail, strains, p) == []
    decreases 8 - p
  {
    if p < 8 {
      EmittedPrefix(avail, strains, labels, p + 1);
      if p >= |labels| {
        assert Nearest(avail, p + 1).None?;
      }
    }
  }

  /** A lineage with no gap, from the domain down to some rank (with its strain entries
      only when it reaches the species), is written out unchanged. */
  lemma GapFreeVerbatim(labels: seq<string>, strains: seq<string>)
    requires |labels| <= 8 && StrainEntries(strains) && (strains != [] ==> |labels| == 8)
    ensures PadSpec(Lineage(labels) + strains) == Success(Join(Lineage(labels) + strains, ";"))
  {
    var ranks := Lineage(labels) + strains;
    LineageAvailable(labels, strains);
    LineageNoStrains(labels);
    StrainsOfStrains(strains);
    StrainsAppend(Lineage(labels), strains);
    var avail := Available(ranks);
    assert Strains(ranks) == strains;
    assert strains != [] ==> Code(7) == "s" && "s" in avail;
    PadSpecCases(ranks);
    EmittedPrefix(avail, strains != [], labels, 0);
    assert Emitted(avail, strains != [], 0) == Lineage(labels);
  }

  // ---------------------------------------------------------------------------
  // Gaps.

  /** A bacterial or archaeal lineage without a kingdom: the kingdom repeats the domain
      instead of a placeholder; ranks after the last present one are omitted. */
  lemma KingdomMirrorsDomain(dom: string, phylum: string)
    requires dom == "Bacteria" || dom == "Archaea"
    ensures PadSpec(["d__" + dom, "p__" + phylum]) == Success(Join(["d__" + dom, "k__" + dom, "p__" + phylum], ";"))
  {
    var ranks := ["d__" + dom, "p__" + phylum];
    EntrySplits("d", dom);
    EntrySplits("p", phylum);
    assert "d" + "__" + dom == ranks[0] && "p" + "__" + phylum == ranks[1];
    SingleEntry(ranks[1]);
    assert ranks[1..] == [ranks[1]];
    assert AllSeparated(ranks);
    var avail := Available(ranks);
    assert avail == map["p" := phylum, "d" := dom];
    assert Strains(ranks) == [];
    PadSpecCases(ranks);
    KingdomEmitted(avail, dom, phylum);
    assert Emitted(avail, false, 0) + [] == Emitted(avail, false, 0);
  }

  lemma KingdomEmitted(avail: map<string, string>, dom: string, phylum: string)
    requires avail == map["p" := phylum, "d" := dom] && (dom == "Bacteria" || dom == "Archaea")
    ensures Emitted(avail, false, 0) == ["d__" + dom, "k__" + dom, "p__" + phylum]
  {
    var d, k, ph := "d__" + dom, "k__" + dom, "p__" + phylum;
    TailAbsent(avail);
    assert Emitted(avail, false, 3) == [];
    assert Code(2) == "p" && Code(2) + "__" + phylum == ph;
    assert Emitted(avail, false, 2) == [ph];
    assert Code(1) == "k" && Code(1) !in avail && Order[1] == 'k';
    assert SlotAt(avail, false, 1) == Some(k);
    assert Emitted(avail, false, 1) == [k, ph];
    assert Code(0) == "d" && Code(0) + "__" + dom == d;
  }

  /** With only a domain and a phylum known, nothing from the class on is present. */
  lemma TailAbsent(avail: map<string, string>)
    requires forall key <- avail :: key == "d" || key == "p"
    ensures Nearest(avail, 3).None?
  {
    assert Code(3) == "c" && Code(4) == "o" && Code(5) == "f" && Code(6) == "g" && Code(7) == "s";
  }

  /** A lineage of one entry. */
  lemma SingleEntry(entry: string)
    requires HasSeparator(entry)
    ensures AllSeparated([entry])
    ensures Available([entry]) == map[Key(entry) := Label(entry)]
    ensures Strains([entry]) == if IsStrainKey(Key(entry)) then [entry] else []
  {
    assert [entry][1..] == [];
  }

  /** The ranks from position `p` on when only the species is known: `containing` and the
      species for each rank before it, then the species itself. */
  function Placeholders(species: string, p: nat): (r: seq<string>)
    requires p <= 7
    ensures |r| == 8 - p && r[|r| - 1] == "s__" + species
    decreases 7 - p
  {
    if p == 7 then ["s__" + species]
    else [Code(p) + "__containing " + ("s__" + species)] + Placeholders(species, p + 1)
  }

  /** Only a species: every rank above it is padded with `containing` and the species,
      the kingdom too since no domain is known. */
  lemma SpeciesOnlyPadded(species: string)
    ensures PadSpec(["s__" + species]) == Success(Join(Placeholders(species, 0), ";"))
  {
    var ranks := ["s__" + species];
    SpeciesEntry(species);
    var avail := Available(ranks);
    PadSpecCases(ranks);
    ContainingPrefix(avail, species, 0);
    assert Emitted(avail, false, 0) + [] == Placeholders(species, 0);
  }

  lemma SpeciesEntry(species: string)
    ensures AllSeparated(["s__" + species])
    ensures Available(["s__" + species]) == map["s" := species] && Strains(["s__" + species]) == []
  {
    var entry := "s__" + species;
    EntrySplits("s", species);
    assert "s" + "__" + species == entry;
    SingleEntry(entry);
  }

  /** The codes before the species are not the species. */
  lemma CodeNotSpecies(p: nat)
    requires p < 7
    ensures Code(p) != "s" && Code(7) == "s"
  {
    assert Code(p)[0] == Order[p];
    if p == 0 {} else if p == 1 {} else if p == 2 {} else if p == 3 {} else if p == 4 {} else if p == 5 {} else {}
  }

  /** A missing rank other than a kingdom that mirrors a Bacteria or Archaea domain, with
      `x` the nearest more specific entry: its placeholder comes before the later slots. */
  lemma ContainingSlot(avail: map<string, string>, strains: bool, p: nat, x: string)
    requires p < 8 && Code(p) !in avail && !(Order[p] == 'k' && Mirrored(avail)) && Nearest(avail, p + 1) == Some(x)
    ensures SlotAt(avail, strains, p) == Some(Code(p) + "__containing " + x)
    ensures Emitted(avail, strains, p) == [Code(p) + "__containing " + x] + Emitted(avail, strains, p + 1)
  {
  }

  lemma {:induction false} ContainingPrefix(avail: map<string, string>, species: string, p: nat)
    requires p <= 7 && avail == map["s" := species]
    ensures Emitted(avail, false, p) == Placeholders(species, p)
    decreases 7 - p
  {
    if p == 7 {
      SpeciesSlot(avail, species);
    } else {
      ContainingPrefix(avail, species, p + 1);
      ContainingSpecies(avail, species, p);
    }
  }

  lemma SpeciesSlot(avail: map<string, string>, species: string)
    requires avail == map["s" := species]
    ensures Emitted(avail, false, 7) == ["s__" + species]
  {
    assert Code(7) == "s" && Code(7) + "__" + species == "s__" + species;
    assert Emitted(avail, false, 8) == [];
  }

  lemma ContainingSpecies(avail: map<string, string>, species: string, p: nat)
    requires p < 7 && avail == map["s" := species]
    ensures Emitted(avail, false, p) == [Code(p) + "__containing " + ("s__" + species)] + Emitted(avail, false, p + 1)
  {
    NearestSpecies(avail, species, p + 1);
    CodeNotSpecies(p);
    assert Code(p) !in avail && "d" !in avail;
    ContainingSlot(avail, false, p, "s__" + species);
  }

  lemma {:induction false} NearestSpecies(avail: map<string, string>, species: string, p: nat)
    requires p <= 7 && avail == map["s" := species]
    ensures Nearest(avail, p) == Some("s__" + species)
    decreases 7 - p
  {
    CodesDistinct();
    assert Code(7) == "s" && Code(7) + "__" + species == "s__" + species;
    if p < 7 {
      NearestSpecies(avail, species, p + 1);
    }
  }
}
