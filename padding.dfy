/**
  `_pad_ranks`: renders a lineage of `rank__label` entries as an eight-rank
  taxonomy string over the order d, k, p, c, o, f, g, s, padding a missing rank
  with a `containing` placeholder once something more specific is known, letting
  the kingdom mirror the domain for Bacteria and Archaea, and keeping strain
  entries at the end.
 */
module Padding {
  import opened Wrappers
  import opened Text

  /** MissingSeparator: an entry without "__" (the unpack raises ValueError).
      UnboundLabel: a placeholder is needed before any rank was found (UnboundLocalError). */
  datatype PadError = MissingSeparator | UnboundLabel

  /** The eight rank codes, general to specific: d, k, p, c, o, f, g, s. */
  const Order: string := "dkpcofgs"

  /** The rank code at position `p` of the order, as a string. */
  function Code(p: nat): string
    requires p < 8
  {
    [Order[p]]
  }

  predicate AllSeparated(ranks: seq<string>) {
    forall j | 0 <= j < |ranks| :: HasSeparator(ranks[j])
  }

  /** The rank code before the first "__". */
  function Key(entry: string): string
    requires HasSeparator(entry)
  {
    Split(entry).value.0
  }

  /** The label after the first "__". */
  function Label(entry: string): string
    requires HasSeparator(entry)
  {
    Split(entry).value.1
  }

  /** `len(r) > 1 and r.startswith('s')`. */
  predicate IsStrainKey(key: string) {
    |key| > 1 && key[0] == 's'
  }

  /** The `available` dictionary: rank code to label, an earlier entry overriding a later one. */
  function Available(ranks: seq<string>): map<string, string>
    requires AllSeparated(ranks)
  {
    if ranks == [] then map[]
    else Available(ranks[1..])[Key(ranks[0]) := Label(ranks[0])]
  }

  /** The keys of `available` are exactly the rank codes of the entries. */
  lemma {:induction false} AvailableKeys(ranks: seq<string>)
    requires AllSeparated(ranks)
    ensures forall k :: k in Available(ranks) <==> exists j | 0 <= j < |ranks| :: Key(ranks[j]) == k
  {
    if ranks != [] {
      AvailableKeys(ranks[1..]);
      forall k ensures k in Available(ranks) <==> exists j | 0 <= j < |ranks| :: Key(ranks[j]) == k {
        if k in Available(ranks[1..]) {
          var j :| 0 <= j < |ranks[1..]| && Key(ranks[1..][j]) == k;
          assert Key(ranks[j + 1]) == k;
        }
        if j :| 0 <= j < |ranks| && Key(ranks[j]) == k {
          if j > 0 {
            assert Key(ranks[1..][j - 1]) == k;
          }
        }
      }
    }
  }

  /** For a repeated rank code the entry nearest the root wins. */
  lemma {:induction false} AvailableFirst(ranks: seq<string>, i: nat)
    requires AllSeparated(ranks) && i < |ranks|
    requires forall j | 0 <= j < i :: Key(ranks[j]) != Key(ranks[i])
    ensures Key(ranks[i]) in Available(ranks) && Available(ranks)[Key(ranks[i])] == Label(ranks[i])
  {
    if i > 0 {
      var rest := ranks[1..];
      assert rest[i - 1] == ranks[i];
      forall j | 0 <= j < i - 1 ensures Key(rest[j]) != Key(rest[i - 1]) {
        assert rest[j] == ranks[j + 1];
      }
      AvailableFirst(rest, i - 1);
    }
  }

  /** The strain entries, verbatim and in lineage order. */
  function Strains(ranks: seq<string>): seq<string>
    requires AllSeparated(ranks)
  {
    if ranks == [] then []
    else (if IsStrainKey(Key(ranks[0])) then [ranks[0]] else []) + Strains(ranks[1..])
  }

  /** Strains holds exactly the entries with a strain rank code. */
  lemma {:induction false} StrainsMembers(ranks: seq<string>)
    requires AllSeparated(ranks)
    ensures forall x <- Strains(ranks) :: x in ranks && IsStrainKey(Key(x))
    ensures forall j | 0 <= j < |ranks| && IsStrainKey(Key(ranks[j])) :: ranks[j] in Strains(ranks)
  {
    if ranks != [] {
      StrainsMembers(ranks[1..]);
      forall j | 0 <= j < |ranks| && IsStrainKey(Key(ranks[j])) ensures ranks[j] in Strains(ranks) {
        if j > 0 {
          assert ranks[1..][j - 1] == ranks[j];
        }
      }
    }
  }

  /** `f'{r}__{label}'` for the rank at position `p` of the order. */
  function Render(avail: map<string, string>, p: nat): string
    requires p < 8 && Code(p) in avail
  {
    Code(p) + "__" + avail[Code(p)]
  }

  /** The nearest present rank at position `p` or more specific, rendered: the
      `last_good_label` once the ranks from `s` up to position `p` are processed. */
  function Nearest(avail: map<string, string>, p: nat): (r: Option<string>)
    requires p <= 8
    ensures r.Some? <==> exists q | p <= q < 8 :: Code(q) in avail
    ensures r.Some? ==> exists q | p <= q < 8 :: && Code(q) in avail && r.value == Render(avail, q)
                                                && forall q' | p <= q' < q :: Code(q') !in avail
    decreases 8 - p
  {
    if p == 8 then None
    else if Code(p) in avail then Some(Render(avail, p))
    else Nearest(avail, p + 1)
  }

  /** The domain is one of the two for which the kingdom repeats it. */
  predicate Mirrored(avail: map<string, string>) {
    "d" in avail && (avail["d"] == "Bacteria" || avail["d"] == "Archaea")
  }

  /** What the rank at position `p` contributes; `strains` says whether there are strain
      entries. A `containing` slot with nothing more specific is the UnboundLabel error,
      which PadSpec rules out before it renders; it yields None here. */
  function SlotAt(avail: map<string, string>, strains: bool, p: nat): Option<string>
    requires p < 8
  {
    if Code(p) in avail then Some(Render(avail, p))
    else if !strains && Nearest(avail, p + 1).None? then None
    else if Order[p] == 'k' && Mirrored(avail) then Some("k__" + avail["d"])
    else match Nearest(avail, p + 1)
      case Some(x) => Some(Code(p) + "__containing " + x)
      case None => None
  }

  /** The slots of the ranks from position `p` on, general to specific. */
  function Emitted(avail: map<string, string>, strains: bool, p: nat): seq<string>
    requires p <= 8
    decreases 8 - p
  {
    if p == 8 then []
    else (match SlotAt(avail, strains, p) case Some(x) => [x] case None => []) + Emitted(avail, strains, p + 1)
  }

  /** The rendered taxonomy: the slots of the eight ranks, then the strain entries, joined by ";". */
  function PadSpec(ranks: seq<string>): Result<string, PadError> {
    if !AllSeparated(ranks) then Failure(MissingSeparator)
    else
      var avail := Available(ranks);
      var strains := Strains(ranks);
      if strains != [] && "s" !in avail then Failure(UnboundLabel)
      else Success(Join(Emitted(avail, strains != [], 0) + strains, ";"))
  }

  /** Once the species check has passed, something has been emitted from position `q` on
      exactly when some rank from `q` on is present. */
  lemma {:induction false} EmittedNonEmpty(avail: map<string, string>, strains: bool, q: nat)
    requires q <= 8 && (strains ==> "s" in avail)
    ensures Emitted(avail, strains, q) != [] <==> Nearest(avail, q).Some?
    decreases 8 - q
  {
    if q < 8 {
      EmittedNonEmpty(avail, strains, q + 1);
      if strains && q < 7 {
        assert Code(7) in avail;
      }
    }
  }

  /** A rank is left out exactly when neither it nor any more specific rank is present:
      leading gaps are omitted, every later gap is padded. */
  lemma Omitted(avail: map<string, string>, strains: bool, p: nat)
    requires p < 8 && (strains ==> "s" in avail)
    ensures SlotAt(avail, strains, p).None? <==> forall q | p <= q < 8 :: Code(q) !in avail
  {
    if strains && p < 7 {
      assert Code(7) in avail;
    }
  }

  /** A missing rank below which something is present is padded: the kingdom with the
      domain's label for Bacteria and Archaea, any other rank with `containing` and the
      nearest more specific present entry. */
  lemma Padded(avail: map<string, string>, strains: bool, p: nat, q: nat)
    requires p < q < 8 && Code(p) !in avail && Code(q) in avail
    requires forall q' | p < q' < q :: Code(q') !in avail
    ensures Order[p] == 'k' && Mirrored(avail) ==> SlotAt(avail, strains, p) == Some("k__" + avail["d"])
    ensures !(Order[p] == 'k' && Mirrored(avail)) ==>
              SlotAt(avail, strains, p) == Some(Code(p) + "__containing " + Render(avail, q))
  {
    var n := Nearest(avail, p + 1);
    assert n.Some?;
    var q0 :| p + 1 <= q0 < 8 && Code(q0) in avail && n.value == Render(avail, q0)
              && forall q' | p + 1 <= q' < q0 :: Code(q') !in avail;
    assert q0 == q;
  }

  /** Reading one more entry in the reversed scan. */
  lemma ScanStep(ranks: seq<string>, i: nat)
    requires i < |ranks| && AllSeparated(ranks[i..])
    ensures AllSeparated(ranks[i + 1..])
    ensures Available(ranks[i..]) == Available(ranks[i + 1..])[Key(ranks[i]) := Label(ranks[i])]
    ensures Reverse(Strains(ranks[i..])) ==
              Reverse(Strains(ranks[i + 1..])) + (if IsStrainKey(Key(ranks[i])) then [ranks[i]] else [])
  {
    var rest := ranks[i..];
    assert rest[0] == ranks[i] && rest[1..] == ranks[i + 1..];
    ReverseAppend(if IsStrainKey(Key(ranks[i])) then [ranks[i]] else [], Strains(ranks[i + 1..]));
  }

  /** The `for rank in reversed(ranks)` loop: fills `available` and collects the strain
      entries, most specific first; `ok` is false where an entry has no "__". */
  method ScanEntries(ranks: seq<string>) returns (available: map<string, string>, taxonomy: seq<string>, ok: bool)
    ensures ok <==> AllSeparated(ranks)
    ensures ok ==> available == Available(ranks) && taxonomy == Reverse(Strains(ranks))
  {
    available, taxonomy := map[], [];
    var i := |ranks|;
    while i > 0
      invariant 0 <= i <= |ranks| && AllSeparated(ranks[i..])
      invariant available == Available(ranks[i..])
      invariant taxonomy == Reverse(Strains(ranks[i..]))
    {
      i := i - 1;
      var rank := ranks[i];
      match Split(rank)
      case None =>
        return available, taxonomy, false;
      case Some((key, text)) =>
        assert AllSeparated(ranks[i..]) by {
          assert forall j | i < j < |ranks| :: ranks[j] == ranks[i + 1..][j - i - 1];
        }
        ScanStep(ranks, i);
        available := available[key := text];
        if |key| > 1 && key[0] == 's' {
          taxonomy := taxonomy + [rank];
        }
    }
    assert ranks[0..] == ranks;
    ok := true;
  }

  /** The `for r in reversed(order)` loop and the final join, from the scanned state. */
  method FillRanks(ghost ranks: seq<string>, available: map<string, string>, taxonomy0: seq<string>)
    returns (r: Result<string, PadError>)
    requires AllSeparated(ranks) && available == Available(ranks) && taxonomy0 == Reverse(Strains(ranks))
    ensures r == PadSpec(ranks)
  {
    ghost var strains := Strains(ranks);
    ghost var hs := strains != [];
    PadSpecCases(ranks);
    var taxonomy := taxonomy0;
    var lastGoodLabel: Option<string> := None;
    var p: nat := |Order|;
    while p > 0
      invariant p <= 8
      invariant taxonomy == Reverse(strains) + Reverse(Emitted(available, hs, p))
      invariant lastGoodLabel == Nearest(available, p)
      invariant p < 8 ==> (hs ==> "s" in available)
    {
      p := p - 1;
      var key := Code(p);
      FillGuard(available, strains, p, taxonomy, lastGoodLabel);
      if key in available {
        FillPresent(available, strains, p, taxonomy);
        var entry := key + "__" + available[key];
        taxonomy := taxonomy + [entry];
        lastGoodLabel := Some(entry);
      } else if taxonomy != [] {
        FillMissing(available, strains, p, taxonomy, lastGoodLabel);
        if key == "k" && "d" in available && (available["d"] == "Bacteria" || available["d"] == "Archaea") {
          taxonomy := taxonomy + ["k__" + available["d"]];
        } else if lastGoodLabel.None? {
          return Failure(UnboundLabel);
        } else {
          taxonomy := taxonomy + [key + "__containing " + lastGoodLabel.value];
        }
      }
    }
    FillDone(strains, Emitted(available, hs, 0), taxonomy);
    return Success(Join(Reverse(taxonomy), ";"));
  }

  /** PadSpec once every entry has a separator. */
  lemma PadSpecCases(ranks: seq<string>)
    requires AllSeparated(ranks)
    ensures Strains(ranks) != [] && "s" !in Available(ranks) ==> PadSpec(ranks) == Failure(UnboundLabel)
    ensures !(Strains(ranks) != [] && "s" !in Available(ranks)) ==>
              PadSpec(ranks) == Success(Join(Emitted(Available(ranks), Strains(ranks) != [], 0) + Strains(ranks), ";"))
  {
  }

  /** What the order loop tests at position `p`: the list is non-empty exactly when
      there are strains or some more specific rank is present. */
  lemma FillGuard(avail: map<string, string>, strains: seq<string>, p: nat, taxonomy: seq<string>, last: Option<string>)
    requires p < 8 && (p < 7 ==> (strains != [] ==> "s" in avail))
    requires taxonomy == Reverse(strains) + Reverse(Emitted(avail, strains != [], p + 1))
    requires last == Nearest(avail, p + 1)
    ensures taxonomy != [] <==> strains != [] || last.Some?
    ensures p < 7 && strains != [] ==> last.Some?
    ensures p == 7 ==> Code(p) == "s" && last.None?
    ensures Code(p) == "k" <==> Order[p] == 'k'
  {
    if p < 7 {
      EmittedNonEmpty(avail, strains != [], p + 1);
      if strains != [] {
        assert Code(7) in avail;
      }
    }
  }

  /** A present rank at position `p` adds its own entry and becomes `last_good_label`. */
  lemma FillPresent(avail: map<string, string>, strains: seq<string>, p: nat, taxonomy: seq<string>)
    requires p < 8 && Code(p) in avail
    requires taxonomy == Reverse(strains) + Reverse(Emitted(avail, strains != [], p + 1))
    ensures taxonomy + [Code(p) + "__" + avail[Code(p)]] == Reverse(strains) + Reverse(Emitted(avail, strains != [], p))
    ensures Some(Code(p) + "__" + avail[Code(p)]) == Nearest(avail, p)
  {
    AppendSlot(strains, Emitted(avail, strains != [], p + 1), taxonomy);
  }

  /** A missing rank at position `p`: omitted while the list is empty, else the kingdom
      mirror or the `containing` placeholder; `last_good_label` stays. */
  lemma FillMissing(avail: map<string, string>, strains: seq<string>, p: nat, taxonomy: seq<string>, last: Option<string>)
    requires p < 8 && Code(p) !in avail
    requires taxonomy == Reverse(strains) + Reverse(Emitted(avail, strains != [], p + 1))
    requires last == Nearest(avail, p + 1)
    requires taxonomy != [] <==> strains != [] || last.Some?
    ensures last == Nearest(avail, p)
    ensures taxonomy == [] ==> taxonomy == Reverse(strains) + Reverse(Emitted(avail, strains != [], p))
    ensures taxonomy != [] && Order[p] == 'k' && Mirrored(avail) ==>
              taxonomy + ["k__" + avail["d"]] == Reverse(strains) + Reverse(Emitted(avail, strains != [], p))
    ensures taxonomy != [] && !(Order[p] == 'k' && Mirrored(avail)) && last.Some? ==>
              taxonomy + [Code(p) + "__containing " + last.value] == Reverse(strains) + Reverse(Emitted(avail, strains != [], p))
  {
    var em := Emitted(avail, strains != [], p + 1);
    AppendSlot(strains, em, taxonomy);
    assert [] + em == em;
  }

  /** Appending to the reversed list puts a slot in front of the later ones. */
  lemma AppendSlot(strains: seq<string>, em: seq<string>, taxonomy: seq<string>)
    requires taxonomy == Reverse(strains) + Reverse(em)
    ensures forall x :: taxonomy + [x] == Reverse(strains) + Reverse([x] + em)
  {
    forall x ensures taxonomy + [x] == Reverse(strains) + Reverse([x] + em) {
      ReverseAppend([x], em);
    }
  }

  /** The reversed list holds the slots, then the strains. */
  lemma FillDone(strains: seq<string>, em: seq<string>, taxonomy: seq<string>)
    requires taxonomy == Reverse(strains) + Reverse(em)
    ensures Reverse(taxonomy) == em + strains
  {
    ReverseAppend(em, strains);
    ReverseReverse(em + strains);
  }

  /** `_pad_ranks(ranks)`. */
  method PadRanks(ranks: seq<string>) returns (r: Result<string, PadError>)
    ensures r == PadSpec(ranks)
    ensures r == Failure(MissingSeparator) <==> exists j | 0 <= j < |ranks| :: !HasSeparator(ranks[j])
  {
    var available, taxonomy, ok := ScanEntries(ranks);
    if !ok {
      return Failure(MissingSeparator);
    }
    r := FillRanks(ranks, available, taxonomy);
  }
}
