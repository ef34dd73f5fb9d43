/** Derived gNB settings: autoderive_slicing_args in apps/gnb/gnb.cpp,
    autoderive_supported_tas_for_amf_from_du_cells in
    apps/gnb/gnb_appconfig_cli11_schema.cpp, and validate_plmn_and_tacs in
    apps/gnb/gnb_appconfig_validators.cpp. */
module GnbConfig {

  /** A slice: service type and differentiator. */
  datatype Nssai = Nssai(sst: nat, sd: nat)

  datatype Cell = Cell(plmn: string, tac: nat, slices: seq<Nssai>)

  datatype PlmnItem = PlmnItem(plmn: string, slices: seq<Nssai>)

  datatype TrackingArea = TrackingArea(tac: nat, plmns: seq<PlmnItem>)

  datatype Amf = Amf(areas: seq<TrackingArea>, isDefault: bool)

  datatype CuCp = CuCp(noCore: bool, amf: Amf, extraAmfs: seq<Amf>, slices: seq<Nssai>)

  // ---------------------------------------------------------------- slices

  /** All slices of the cells, in order. */
  function AllSlices(cells: seq<Cell>): seq<Nssai> {
    if cells == [] then [] else cells[0].slices + AllSlices(cells[1..])
  }

  /** Where a slice is first seen; the length if it is not. */
  function FirstIndex(all: seq<Nssai>, s: Nssai): (r: nat)
    ensures r <= |all| && (r < |all| <==> s in all)
    ensures r < |all| ==> all[r] == s
    ensures forall k | 0 <= k < r :: all[k] != s
  {
    if all == [] || all[0] == s then 0 else 1 + FirstIndex(all[1..], s)
  }

  /** The slices stand in the order first seen, so that none stands twice. */
  predicate Ordered(all: seq<Nssai>, list: seq<Nssai>) {
    forall i, j | 0 <= i < j < |list| :: FirstIndex(all, list[i]) < FirstIndex(all, list[j])
  }

  /** `added` holds the slices of `all` that are not in `had`, once each, in the order first seen. */
  ghost predicate IsMissing(all: seq<Nssai>, had: seq<Nssai>, added: seq<Nssai>) {
    (forall s :: s in added <==> s in all && s !in had) && Ordered(all, added)
  }

  lemma FirstIndexPrefix(all: seq<Nssai>, n: nat, s: Nssai)
    requires n <= |all| && s in all[..n]
    ensures FirstIndex(all, s) == FirstIndex(all[..n], s) < n
  {
    assert forall k | 0 <= k < n :: all[..n][k] == all[k];
  }

  lemma FirstIndexNew(all: seq<Nssai>, n: nat)
    requires n < |all| && all[n] !in all[..n]
    ensures FirstIndex(all, all[n]) == n
  {
    assert forall k | 0 <= k < n :: all[..n][k] == all[k];
  }

  /** The first `n` slices are in the list, once each, in the order first seen. */
  ghost predicate Seen(all: seq<Nssai>, n: nat, list: seq<Nssai>)
    requires n <= |all|
  {
    (forall s :: s in list <==> s in all[..n]) && Ordered(all, list)
  }

  lemma SeenStep(all: seq<Nssai>, n: nat, list: seq<Nssai>)
    requires n < |all| && Seen(all, n, list)
    ensures Seen(all, n + 1, if all[n] in list then list else list + [all[n]])
  {
    assert all[..n + 1] == all[..n] + [all[n]];
    if all[n] !in list {
      var next := list + [all[n]];
      FirstIndexNew(all, n);
      forall i, j | 0 <= i < j < |next|
        ensures FirstIndex(all, next[i]) < FirstIndex(all, next[j])
      {
        assert next[i] in list;
        FirstIndexPrefix(all, n, next[i]);
      }
    }
  }

  /** The inner loop over the slices of one cell. */
  method CollectFrom(slices: seq<Nssai>, seen: seq<Nssai>, ghost all: seq<Nssai>, ghost n: nat) returns (list: seq<Nssai>)
    requires n + |slices| <= |all| && all[n..n + |slices|] == slices && Seen(all, n, seen)
    ensures Seen(all, n + |slices|, list)
  {
    hide Seen;
    list := seen;
    for i := 0 to |slices|
      invariant Seen(all, n + i, list)
    {
      assert all[n + i] == all[n..n + |slices|][i] == slices[i];
      SeenStep(all, n + i, list);
      if slices[i] !in list {
        list := list + [slices[i]];
      }
    }
  }

  lemma AllSlicesAt(cells: seq<Cell>, all: seq<Nssai>, n: nat, c: nat)
    requires c < |cells| && n <= |all| && all[n..] == AllSlices(cells[c..])
    ensures var k := |cells[c].slices|;
            n + k <= |all| && all[n..n + k] == cells[c].slices && all[n + k..] == AllSlices(cells[c + 1..])
  {
    var k := |cells[c].slices|;
    assert cells[c..][1..] == cells[c + 1..];
    assert all[n..] == cells[c].slices + AllSlices(cells[c + 1..]);
    assert all[n..][..k] == all[n..n + k] && all[n..][k..] == all[n + k..];
  }

  /** The slices of all cells, once each. */
  method CollectSlices(cells: seq<Cell>) returns (list: seq<Nssai>)
    ensures Seen(AllSlices(cells), |AllSlices(cells)|, list)
  {
    list := [];
    ghost var all := AllSlices(cells);
    ghost var n: nat := 0;
    assert Seen(all, 0, list);
    assert cells[0..] == cells;
    for c := 0 to |cells|
      invariant n <= |all| && all[n..] == AllSlices(cells[c..]) && Seen(all, n, list)
    {
      hide Seen, AllSlices;
      AllSlicesAt(cells, all, n, c);
      list := CollectFrom(cells[c].slices, list, all, n);
      n := n + |cells[c].slices|;
    }
    assert cells[|cells|..] == [];
    assert n == |all|;
  }

  /** `added` holds the first `i` slices of the list that were not there before. */
  ghost predicate AddedUpTo(all: seq<Nssai>, list: seq<Nssai>, had: seq<Nssai>, i: nat, added: seq<Nssai>)
    requires i <= |list|
  {
    (forall s :: s in added <==> s in list[..i] && s !in had) && Ordered(all, added)
  }

  lemma AddedStep(all: seq<Nssai>, list: seq<Nssai>, had: seq<Nssai>, i: nat, added: seq<Nssai>)
    requires i < |list| && Ordered(all, list) && AddedUpTo(all, list, had, i, added)
    ensures AddedUpTo(all, list, had, i + 1, if list[i] in had then added else added + [list[i]])
    ensures list[i] !in added
  {
    hide FirstIndex;
    ListedOnce(all, list, i);
    assert list[..i + 1] == list[..i] + [list[i]];
    forall k | 0 <= k < |added|
      ensures FirstIndex(all, added[k]) < FirstIndex(all, list[i])
    {
      assert added[k] in list[..i];
      var m :| 0 <= m < i && list[..i][m] == added[k];
      assert list[m] == added[k];
    }
  }

  /** autoderive_slicing_args: the CU-CP list is its old value followed by the DU
      slices it lacked, once each and in the order first seen. */
  method DeriveSlices(cells: seq<Cell>, had: seq<Nssai>) returns (slices: seq<Nssai>)
    ensures |had| <= |slices| && slices[..|had|] == had
    ensures IsMissing(AllSlices(cells), had, slices[|had|..])
  {
    hide FirstIndex, Ordered, AddedUpTo, Seen, IsMissing;
    var list := CollectSlices(cells);
    slices := had;
    ghost var all, added := AllSlices(cells), [];
    NothingAdded(all, list, had);
    for i := 0 to |list|
      invariant slices == had + added && AddedUpTo(all, list, had, i, added)
    {
      SeenOrdered(all, list);
      AddedStep(all, list, had, i, added);
      if list[i] !in slices {
        slices := slices + [list[i]];
        added := added + [list[i]];
      }
    }
    AllAdded(all, list, had, added);
    assert slices[|had|..] == added;
  }

  lemma NothingAdded(all: seq<Nssai>, list: seq<Nssai>, had: seq<Nssai>)
    ensures AddedUpTo(all, list, had, 0, [])
  {
  }

  lemma SeenOrdered(all: seq<Nssai>, list: seq<Nssai>)
    requires Seen(all, |all|, list)
    ensures Ordered(all, list)
  {
  }

  lemma AllAdded(all: seq<Nssai>, list: seq<Nssai>, had: seq<Nssai>, added: seq<Nssai>)
    requires Seen(all, |all|, list) && AddedUpTo(all, list, had, |list|, added)
    ensures IsMissing(all, had, added)
  {
    assert all[..|all|] == all && list[..|list|] == list;
  }

  lemma ListedOnce(all: seq<Nssai>, list: seq<Nssai>, i: nat)
    requires i < |list| && Ordered(all, list)
    ensures list[i] !in list[..i]
  {
    assert forall m | 0 <= m < i :: FirstIndex(all, list[m]) < FirstIndex(all, list[i]);
  }

  lemma HeadIsMember(list: seq<Nssai>)
    ensures list != [] ==> list[0] in list
  {
  }

  /** Deriving leaves nothing uncovered, and nothing for a second run to add. */
  lemma DerivedSlicesCover(cells: seq<Cell>, had: seq<Nssai>, slices: seq<Nssai>, again: seq<Nssai>)
    requires |had| <= |slices| && slices[..|had|] == had && IsMissing(AllSlices(cells), had, slices[|had|..])
    requires IsMissing(AllSlices(cells), slices, again)
    ensures (forall s :: s in AllSlices(cells) ==> s in slices) && again == []
  {
    assert slices == had + slices[|had|..];
    HeadIsMember(again);
  }

  // ---------------------------------------------------------------- tracking areas

  /** The tracking area of a cell: its PLMN with the default slice. */
  function AreaOf(cell: Cell): TrackingArea {
    TrackingArea(cell.tac, [PlmnItem(cell.plmn, [Nssai(1, 0xFFFFFF)])])
  }

  /** autoderive_supported_tas_for_amf_from_du_cells. */
  method DeriveAreas(cells: seq<Cell>, cfg: CuCp) returns (r: CuCp)
    ensures cells == [] ==> r == cfg
    ensures cells != [] ==>
              && r == cfg.(amf := r.amf) && !r.amf.isDefault && |r.amf.areas| == |cells|
              && forall i | 0 <= i < |cells| :: r.amf.areas[i] == AreaOf(cells[i])
  {
    r := cfg;
    if cells == [] {
      return;
    }
    r := r.(amf := Amf([], false));
    for i := 0 to |cells|
      invariant r == cfg.(amf := r.amf) && !r.amf.isDefault && |r.amf.areas| == i
      invariant forall k | 0 <= k < i :: r.amf.areas[k] == AreaOf(cells[k])
    {
      r := r.(amf := r.amf.(areas := r.amf.areas + [AreaOf(cells[i])]));
    }
  }

  /** A list of tracking areas covers a cell: one has its TAC and lists its PLMN. */
  ghost predicate Covered(areas: seq<TrackingArea>, cell: Cell) {
    exists a, p :: 0 <= a < |areas| && 0 <= p < |areas[a].plmns| && Names(areas[a], p, cell)
  }

  predicate Names(area: TrackingArea, p: nat, cell: Cell)
    requires p < |area.plmns|
  {
    area.plmns[p].plmn == cell.plmn && area.tac == cell.tac
  }

  /** The areas of all AMFs. */
  function AllAreas(amfs: seq<Amf>): seq<TrackingArea> {
    if amfs == [] then [] else amfs[0].areas + AllAreas(amfs[1..])
  }

  function Areas(cfg: CuCp): seq<TrackingArea> {
    cfg.amf.areas + AllAreas(cfg.extraAmfs)
  }

  method CollectAreas(cfg: CuCp) returns (areas: seq<TrackingArea>)
    ensures areas == Areas(cfg)
  {
    areas := cfg.amf.areas;
    for i := 0 to |cfg.extraAmfs|
      invariant areas + AllAreas(cfg.extraAmfs[i..]) == Areas(cfg)
    {
      assert cfg.extraAmfs[i..][1..] == cfg.extraAmfs[i + 1..];
      areas := areas + cfg.extraAmfs[i].areas;
    }
  }

  method FindCell(areas: seq<TrackingArea>, cell: Cell, found: bool) returns (r: bool)
    ensures r <==> found || Covered(areas, cell)
  {
    r := found;
    for a := 0 to |areas|
      invariant r <==> found || exists b, p :: 0 <= b < a && 0 <= p < |areas[b].plmns| && Names(areas[b], p, cell)
    {
      ghost var before := r;
      for p := 0 to |areas[a].plmns|
        invariant r <==> before || exists q :: 0 <= q < p && Names(areas[a], q, cell)
      {
        if areas[a].plmns[p].plmn == cell.plmn && areas[a].tac == cell.tac {
          assert Names(areas[a], p, cell);
          r := true;
        }
      }
    }
  }

  /** What the validator accepts: with a core, only the first cell counts. */
  ghost predicate Accepts(cells: seq<Cell>, cfg: CuCp) {
    cfg.noCore || (cells != [] && Covered(Areas(cfg), cells[0]))
  }

  /** What it is meant to check. */
  ghost predicate AllCovered(cells: seq<Cell>, cfg: CuCp) {
    forall i | 0 <= i < |cells| :: Covered(Areas(cfg), cells[i])
  }

  /** validate_plmn_and_tacs.  The flag is not reset from cell to cell. */
  method ValidatePlmnAndTacs(cells: seq<Cell>, cfg: CuCp) returns (ok: bool)
    ensures ok <==> Accepts(cells, cfg)
  {
    if cfg.noCore {
      return true;
    }
    var areas := CollectAreas(cfg);
    ok := false;
    for i := 0 to |cells|
      invariant ok <==> i > 0
      invariant i > 0 ==> Covered(areas, cells[0])
    {
      ok := FindCell(areas, cells[i], ok);
      if !ok {
        return false;
      }
    }
  }

  /** The cells announce one and the same PLMN and TAC. */
  predicate AllAlike(cells: seq<Cell>) {
    forall i | 0 <= i < |cells| :: cells[i].plmn == cells[0].plmn && cells[i].tac == cells[0].tac
  }

  /** A config with a core whose one tracking area covers exactly the cells like `cell`. */
  function OnlyFor(cell: Cell): CuCp {
    CuCp(false, Amf([AreaOf(cell)], false), [], [])
  }

  lemma OnlyForCovers(cell: Cell, other: Cell)
    ensures Covered(Areas(OnlyFor(cell)), other) <==> other.plmn == cell.plmn && other.tac == cell.tac
  {
    var areas := Areas(OnlyFor(cell));
    assert areas == [AreaOf(cell)];
    if other.plmn == cell.plmn && other.tac == cell.tac {
      assert Names(areas[0], 0, other);
    }
  }

  lemma AlikeCovered(areas: seq<TrackingArea>, cell: Cell, other: Cell)
    requires Covered(areas, cell) && other.plmn == cell.plmn && other.tac == cell.tac
    ensures Covered(areas, other)
  {
    var a, p :| 0 <= a < |areas| && 0 <= p < |areas[a].plmns| && Names(areas[a], p, cell);
    assert Names(areas[a], p, other);
  }

  /** For which cells acceptance certifies what it is meant to, under every config
      with a core: exactly those that all announce the PLMN and TAC of the first.
      It rejects what it should accept exactly when there is no cell. */
  lemma AcceptsWhatIsMeant(cells: seq<Cell>)
    ensures (forall cfg: CuCp | !cfg.noCore :: Accepts(cells, cfg) ==> AllCovered(cells, cfg)) <==> AllAlike(cells)
    ensures (forall cfg: CuCp | !cfg.noCore :: AllCovered(cells, cfg) ==> Accepts(cells, cfg)) <==> cells != []
  {
    hide Covered, Areas;
    if cells == [] {
      var cfg := CuCp(false, Amf([], false), [], []);
      assert AllCovered(cells, cfg) && !Accepts(cells, cfg);
    } else if AllAlike(cells) {
      forall cfg: CuCp, i | !cfg.noCore && Accepts(cells, cfg) && 0 <= i < |cells|
        ensures Covered(Areas(cfg), cells[i])
      {
        AlikeCovered(Areas(cfg), cells[0], cells[i]);
      }
    } else {
      var cfg := OnlyFor(cells[0]);
      OnlyForCovers(cells[0], cells[0]);
      var i :| 0 <= i < |cells| && !(cells[i].plmn == cells[0].plmn && cells[i].tac == cells[0].tac);
      OnlyForCovers(cells[0], cells[i]);
      assert Accepts(cells, cfg) && !AllCovered(cells, cfg);
    }
  }

  /** A second cell that no tracking area covers is accepted after a covered one. */
  lemma UncoveredCellAccepted()
    ensures var cells := [Cell("00101", 7, []), Cell("00101", 8, [])];
            var cfg := CuCp(false, Amf([TrackingArea(7, [PlmnItem("00101", [])])], false), [], []);
            Accepts(cells, cfg) && !AllCovered(cells, cfg)
  {
    var cells := [Cell("00101", 7, []), Cell("00101", 8, [])];
    var cfg := CuCp(false, Amf([TrackingArea(7, [PlmnItem("00101", [])])], false), [], []);
    var areas := Areas(cfg);
    assert areas == cfg.amf.areas;
    assert Names(areas[0], 0, cells[0]);
    assert !Covered(areas, cells[1]);
  }

  /** Derived tracking areas cover every cell, so that the validator accepts, for
      every non-empty list of cells. */
  lemma DerivedAreasAccepted(cells: seq<Cell>, cfg: CuCp)
    requires cells != [] && |cfg.amf.areas| == |cells|
    requires forall i | 0 <= i < |cells| :: cfg.amf.areas[i] == AreaOf(cells[i])
    ensures AllCovered(cells, cfg) && Accepts(cells, cfg)
  {
    var areas := Areas(cfg);
    forall i | 0 <= i < |cells|
      ensures Covered(areas, cells[i])
    {
      assert areas[i] == cfg.amf.areas[i];
      assert Names(areas[i], 0, cells[i]);
    }
  }
}
