/** The station catalogue step of tools/batch_update.py: the table from JMA
    station code to prefecture with its default, and the stage of
    `scrape_stations` that turns the `(code, name)` pairs found in the
    station page into the station list. The pairs are kept in a dict keyed
    by code, so a later pair replaces an earlier one with the same code while
    the code keeps its first place; pairs with no code, no name or the name
    of the index page are skipped; the values are then sorted by prefecture
    and name. */
module StationCatalog {
  import opened Text
  import opened Sorting
  import Session

  type Station = Session.Station

  /* `REGION_MAP` in the order of its literal, in six parts of 36 entries or
     fewer that share no code, so that each part can be reasoned about on its
     own. */
  const REGION_PART_1: map<string, string> := map[
    "WN" := "北海道", "KE" := "北海道", "A0" := "北海道", "AS" := "北海道", "A6" := "北海道", "NM" := "北海道",
    "HN" := "北海道", "KP" := "北海道", "KR" := "北海道", "B1" := "北海道", "A9" := "北海道", "C8" := "北海道",
    "TM" := "北海道", "SO" := "北海道", "A8" := "北海道", "A3" := "北海道", "HK" := "北海道", "Q0" := "北海道",
    "A5" := "北海道", "ES" := "北海道", "ZP" := "北海道", "OR" := "北海道", "SE" := "北海道", "B6" := "北海道",
    "B5" := "北海道", "Z8" := "北海道", "B3" := "北海道", "OW" := "北海道", "B4" := "北海道", "B2" := "北海道",
    "HA" := "青森", "H1" := "青森", "H0" := "青森", "H9" := "青森", "HC" := "青森", "H2" := "青森"
  ]

  const REGION_PART_2: map<string, string> := map[
    "H3" := "青森", "H5" := "青森", "AW" := "青森", "H4" := "青森", "D0" := "岩手", "D1" := "岩手",
    "D2" := "岩手", "D3" := "岩手", "D4" := "岩手", "D5" := "岩手", "D6" := "岩手", "E0" := "宮城",
    "E1" := "宮城", "E2" := "宮城", "E3" := "宮城", "E4" := "宮城", "F0" := "福島", "F1" := "福島",
    "I0" := "茨城", "I1" := "茨城", "C0" := "千葉", "C1" := "千葉", "C2" := "千葉", "C3" := "千葉",
    "C4" := "千葉", "C5" := "千葉", "TK" := "東京", "T0" := "東京", "T1" := "東京", "T2" := "東京",
    "Y0" := "神奈川", "Y1" := "神奈川", "OD" := "神奈川", "S0" := "静岡", "S1" := "静岡", "S2" := "静岡"
  ]

  const REGION_PART_3: map<string, string> := map[
    "S3" := "静岡", "S4" := "静岡", "S5" := "静岡", "S6" := "静岡", "S7" := "静岡", "NG" := "愛知",
    "N0" := "愛知", "N1" := "三重", "N2" := "三重", "N3" := "三重", "N4" := "三重", "N5" := "三重",
    "W0" := "和歌山", "W1" := "和歌山", "W2" := "和歌山", "W3" := "和歌山", "OS" := "大阪", "K0" := "兵庫",
    "K1" := "兵庫", "K2" := "兵庫", "K3" := "兵庫", "K4" := "兵庫", "K5" := "兵庫", "K6" := "兵庫",
    "K7" := "兵庫", "K8" := "兵庫", "K9" := "兵庫", "U0" := "徳島", "U1" := "徳島", "U2" := "徳島",
    "U3" := "香川", "U4" := "香川", "U5" := "愛媛", "U6" := "愛媛", "U7" := "愛媛", "U8" := "愛媛"
  ]

  const REGION_PART_4: map<string, string> := map[
    "U9" := "愛媛", "V0" := "高知", "V1" := "高知", "V2" := "高知", "V3" := "高知", "V4" := "高知",
    "V5" := "高知", "M0" := "岡山", "M1" := "広島", "M2" := "広島", "M3" := "広島", "J0" := "山口",
    "J1" := "山口", "J2" := "山口", "J3" := "山口", "J4" := "山口", "J5" := "山口", "J6" := "山口",
    "J7" := "山口", "G0" := "福岡", "G1" := "福岡", "G2" := "福岡", "G3" := "福岡", "G4" := "福岡",
    "G5" := "佐賀", "G6" := "佐賀", "G7" := "長崎", "G8" := "長崎", "G9" := "長崎", "GA" := "長崎",
    "GB" := "長崎", "GC" := "長崎", "GD" := "長崎", "L0" := "長崎", "L1" := "長崎", "L3" := "熊本"
  ]

  const REGION_PART_5: map<string, string> := map[
    "L4" := "熊本", "L5" := "熊本", "L6" := "熊本", "L7" := "鹿児島", "L8" := "鹿児島", "L9" := "鹿児島",
    "LA" := "鹿児島", "LB" := "鹿児島", "LC" := "鹿児島", "LD" := "鹿児島", "LE" := "鹿児島", "LF" := "沖縄",
    "LG" := "沖縄", "LH" := "沖縄", "LI" := "沖縄", "LJ" := "沖縄", "LK" := "沖縄", "LL" := "沖縄",
    "LM" := "沖縄", "LN" := "沖縄", "LO" := "沖縄", "LP" := "沖縄", "P0" := "大分", "P1" := "大分",
    "P2" := "大分", "P3" := "宮崎", "P4" := "宮崎", "P5" := "宮崎", "P6" := "福岡", "P7" := "福岡",
    "P8" := "山口", "Q1" := "青森", "Q2" := "秋田", "Q3" := "秋田", "Q4" := "山形", "Q5" := "山形"
  ]

  const REGION_PART_6: map<string, string> := map[
    "R0" := "新潟", "R1" := "新潟", "R2" := "新潟", "R3" := "新潟", "R4" := "新潟", "R5" := "新潟",
    "R6" := "富山", "R7" := "富山", "R8" := "石川", "R9" := "石川", "RA" := "石川", "RB" := "石川",
    "RC" := "福井", "RD" := "福井", "RE" := "福井", "RF" := "京都", "RG" := "京都", "RH" := "兵庫",
    "RI" := "兵庫", "RJ" := "鳥取", "RK" := "鳥取", "RL" := "島根", "RM" := "島根", "RN" := "島根",
    "RO" := "島根", "RP" := "山口", "RQ" := "山口"
  ]

  /** The prefecture of each known station code. */
  const REGION_MAP: map<string, string> := REGION_PART_1 + REGION_PART_2 + REGION_PART_3 + REGION_PART_4 + REGION_PART_5 + REGION_PART_6

  /** The prefecture given to a code the table does not know. */
  const OTHER := "その他"

  /** The link text of the index page, which is not a station. */
  const INDEX_TITLE := "潮汐表"

  /** Every code has two characters and none is mapped to the default. */
  predicate WellKeyed(m: map<string, string>) {
    forall k :: k in m ==> |k| == 2 && m[k] != OTHER
  }

  lemma UnionWellKeyed(a: map<string, string>, b: map<string, string>)
    requires WellKeyed(a) && WellKeyed(b)
    ensures WellKeyed(a + b)
  {
  }

  lemma Part1WellKeyed()
    ensures WellKeyed(REGION_PART_1)
  {
  }

  lemma Part2WellKeyed()
    ensures WellKeyed(REGION_PART_2)
  {
  }

  lemma Part3WellKeyed()
    ensures WellKeyed(REGION_PART_3)
  {
  }

  lemma Part4WellKeyed()
    ensures WellKeyed(REGION_PART_4)
  {
  }

  lemma Part5WellKeyed()
    ensures WellKeyed(REGION_PART_5)
  {
  }

  lemma Part6WellKeyed()
    ensures WellKeyed(REGION_PART_6)
  {
  }

  /** The table holds two-character codes and never the default. */
  lemma RegionMapWellKeyed()
    ensures WellKeyed(REGION_MAP)
  {
    Part1WellKeyed();
    Part2WellKeyed();
    Part3WellKeyed();
    Part4WellKeyed();
    Part5WellKeyed();
    Part6WellKeyed();
    UnionWellKeyed(REGION_PART_1, REGION_PART_2);
    UnionWellKeyed(REGION_PART_1 + REGION_PART_2, REGION_PART_3);
    UnionWellKeyed(REGION_PART_1 + REGION_PART_2 + REGION_PART_3, REGION_PART_4);
    UnionWellKeyed(REGION_PART_1 + REGION_PART_2 + REGION_PART_3 + REGION_PART_4, REGION_PART_5);
    UnionWellKeyed(REGION_PART_1 + REGION_PART_2 + REGION_PART_3 + REGION_PART_4 + REGION_PART_5, REGION_PART_6);
  }

  /** `get_pref_for_code`: the table's prefecture, or the default. */
  function PrefForCode(code: string): string {
    if code in REGION_MAP then REGION_MAP[code] else OTHER
  }

  /** A code gets the default exactly when the table does not know it. */
  lemma PrefForCodeOther(code: string)
    ensures PrefForCode(code) == OTHER <==> code !in REGION_MAP
  {
    RegionMapWellKeyed();
  }

  /** A code of other than two characters gets the default. */
  lemma PrefForCodeOfOtherLength(code: string)
    requires |code| != 2
    ensures PrefForCode(code) == OTHER
  {
    RegionMapWellKeyed();
  }

  /** A `(code, name)` pair that names a station: a code, and a stripped name
      that is neither empty nor the index page's. */
  predicate Kept(link: (string, string)) {
    link.0 != "" && Strip(link.1) != "" && Strip(link.1) != INDEX_TITLE
  }

  /** The entry a kept pair is stored as. */
  function Entry(link: (string, string)): Station {
    Session.Station(link.0, Strip(link.1), PrefForCode(link.0))
  }

  /** `entry` of each element that `keep` accepts, in order. */
  function Selected<A>(xs: seq<A>, keep: A -> bool, entry: A -> Station): seq<Station> {
    if xs == [] then []
    else
      var x := xs[|xs| - 1];
      Selected(xs[..|xs| - 1], keep, entry) + if keep(x) then [entry(x)] else []
  }

  /** The entries of the kept pairs, in the order of the pairs. */
  function Entries(links: seq<(string, string)>): seq<Station> {
    Selected(links, Kept, Entry)
  }

  /** No later entry has the code of the `i`-th. */
  predicate LastOfCode(sts: seq<Station>, i: int) {
    0 <= i < |sts| && forall j :: i < j < |sts| ==> sts[j].code != sts[i].code
  }

  /** A Python dict from code to entry: its codes in insertion order, and
      its entries. */
  datatype StationMap = StationMap(order: seq<string>, entries: map<string, Station>)

  /** Each code is listed once and has an entry, and each entry is stored
      under its own code. */
  ghost predicate Valid(d: StationMap) {
    && NoDuplicates(d.order)
    && (forall k :: k in d.entries <==> k in d.order)
    && (forall k :: k in d.entries ==> d.entries[k].code == k)
  }

  /** `d[st.code] = st`: a new code goes to the end, a known one keeps its
      place and gets the new entry. */
  function Put(d: StationMap, st: Station): (r: StationMap)
    requires Valid(d)
    ensures Valid(r)
  {
    if st.code in d.entries then StationMap(d.order, d.entries[st.code := st])
    else StationMap(d.order + [st.code], d.entries[st.code := st])
  }

  /** `list(d.values())`: the entries in the order of their codes. */
  function Values(d: StationMap): (vs: seq<Station>)
    requires Valid(d)
    ensures |vs| == |d.order|
  {
    seq(|d.order|, i requires 0 <= i < |d.order| => d.entries[d.order[i]])
  }

  /** Storing under a known code replaces its entry in place; storing under a
      new code appends the entry. */
  lemma PutValues(d: StationMap, st: Station)
    requires Valid(d)
    ensures st.code !in d.entries ==> Values(Put(d, st)) == Values(d) + [st]
    ensures st.code in d.entries ==>
      |Values(Put(d, st))| == |Values(d)| &&
      forall i :: 0 <= i < |Values(d)| ==>
        Values(Put(d, st))[i] == if d.order[i] == st.code then st else Values(d)[i]
  {
  }

  /** The dict after storing each entry in turn. */
  function Fill(sts: seq<Station>): (d: StationMap)
    ensures Valid(d)
  {
    if sts == [] then StationMap([], map[])
    else Put(Fill(sts[..|sts| - 1]), sts[|sts| - 1])
  }

  /** Python's `<` on the sort key `(pref, name)`. */
  predicate KeyLt(a: Station, b: Station) {
    StrLt(a.pref, b.pref) || (a.pref == b.pref && StrLt(a.name, b.name))
  }

  /** "Sorts no later than" for `list.sort`, which compares with `<` only. */
  function PrefNameLe(a: Station, b: Station): bool {
    !KeyLt(b, a)
  }

  /** The dict's values sorted by prefecture and name. */
  function Listed(sts: seq<Station>): seq<Station> {
    SortBy(Values(Fill(sts)), PrefNameLe)
  }

  /** The station list `scrape_stations` returns for the pairs found. */
  function Scraped(links: seq<(string, string)>): seq<Station> {
    Listed(Entries(links))
  }

  /** The loop of `scrape_stations` over the pairs, then the sort. */
  method ScrapeStations(links: seq<(string, string)>) returns (stations: seq<Station>)
    ensures stations == Scraped(links)
  {
    var stationsMap := StationMap([], map[]);
    for n := 0 to |links|
      invariant stationsMap == Fill(Entries(links[..n]))
    {
      EntriesStep(links, n);
      var code, name := links[n].0, links[n].1;
      name := Strip(name);
      assert Kept(links[n]) <==> code != "" && name != "" && name != INDEX_TITLE;
      if code != "" && name != "" && name != INDEX_TITLE {
        var pref := PrefForCode(code);
        assert Entry(links[n]) == Session.Station(code, name, pref);
        FillAppend(Entries(links[..n]), Entry(links[n]));
        stationsMap := Put(stationsMap, Session.Station(code, name, pref));
      }
    }
    assert links[..|links|] == links;
    stations := Values(stationsMap);
    stations := SortBy(stations, PrefNameLe);
  }

  /** One more pair adds its entry when it is kept. */
  lemma EntriesStep(links: seq<(string, string)>, n: nat)
    requires n < |links|
    ensures Entries(links[..n + 1]) ==
      if Kept(links[n]) then Entries(links[..n]) + [Entry(links[n])] else Entries(links[..n])
  {
    SelectedStep(links, Kept, Entry, n);
    if !Kept(links[n]) {
      assert Entries(links[..n]) + [] == Entries(links[..n]);
    }
  }

  /** One more element adds its entry when it is accepted. */
  lemma SelectedStep<A>(xs: seq<A>, keep: A -> bool, entry: A -> Station, n: nat)
    requires n < |xs|
    ensures Selected(xs[..n + 1], keep, entry) ==
      Selected(xs[..n], keep, entry) + if keep(xs[n]) then [entry(xs[n])] else []
  {
    assert xs[..n + 1][..n] == xs[..n];
  }

  /** Storing one more entry is one more `Put`. */
  lemma FillAppend(sts: seq<Station>, st: Station)
    ensures Fill(sts + [st]) == Put(Fill(sts), st)
  {
    assert (sts + [st])[..|sts|] == sts;
  }

  /** The key order is a total preorder. */
  lemma PrefNameTotal()
    ensures TotalPreorder(PrefNameLe)
  {
    forall a: Station, b: Station
      ensures !(KeyLt(a, b) && KeyLt(b, a))
    {
      StrLtIrreflexive(a.pref);
      StrLtIrreflexive(a.name);
      if KeyLt(a, b) && KeyLt(b, a) {
        if a.pref == b.pref {
          StrLtTransitive(a.name, b.name, a.name);
        } else {
          StrLtTransitive(a.pref, b.pref, a.pref);
        }
      }
    }
    forall a: Station, b: Station, c: Station | KeyLt(c, a)
      ensures KeyLt(b, a) || KeyLt(c, b)
    {
      KeyOrderSplit(a, b, c);
    }
  }

  /** If `c` sorts before `a`, then any `b` sorts before `a` or after `c`. */
  lemma KeyOrderSplit(a: Station, b: Station, c: Station)
    requires KeyLt(c, a)
    ensures KeyLt(b, a) || KeyLt(c, b)
  {
    StrLtTotal(b.pref, a.pref);
    StrLtTotal(c.pref, b.pref);
    StrLtTotal(b.name, a.name);
    StrLtTotal(c.name, b.name);
    if !KeyLt(b, a) && !KeyLt(c, b) {
      if StrLt(c.pref, a.pref) {
        if StrLt(a.pref, b.pref) {
          StrLtTransitive(c.pref, a.pref, b.pref);
        }
      } else {
        if StrLt(a.name, b.name) {
          StrLtTransitive(c.name, a.name, b.name);
        }
      }
    }
  }

  /** The dict holds, under each code, the last entry with that code. */
  lemma {:induction false} FillHoldsLast(sts: seq<Station>)
    ensures forall i :: LastOfCode(sts, i) ==>
      sts[i].code in Fill(sts).entries && Fill(sts).entries[sts[i].code] == sts[i]
  {
    if sts != [] {
      var n := |sts| - 1;
      var init := sts[..n];
      var d0, d := Fill(init), Fill(sts);
      FillHoldsLast(init);
      assert d.entries == d0.entries[sts[n].code := sts[n]];
      forall i | LastOfCode(sts, i)
        ensures sts[i].code in d.entries && d.entries[sts[i].code] == sts[i]
      {
        if i < n {
          assert LastOfCode(init, i) && init[i] == sts[i];
          assert sts[i].code != sts[n].code;
        }
      }
    }
  }

  /** The dict holds no code but those of the entries. */
  lemma {:induction false} FillHoldsOnly(sts: seq<Station>)
    ensures forall k :: k in Fill(sts).entries ==> exists i :: LastOfCode(sts, i) && sts[i].code == k
  {
    if sts != [] {
      var n := |sts| - 1;
      var init := sts[..n];
      var d0, d := Fill(init), Fill(sts);
      FillHoldsOnly(init);
      assert d.entries.Keys == d0.entries.Keys + {sts[n].code};
      forall k | k in d.entries
        ensures exists i :: LastOfCode(sts, i) && sts[i].code == k
      {
        if k == sts[n].code {
          assert LastOfCode(sts, n);
        } else {
          var i :| LastOfCode(init, i) && init[i].code == k;
          LastOfCodeExtend(sts, i);
        }
      }
    }
  }

  /** An entry last for its code before the final one stays last when the
      final one has another code. */
  lemma LastOfCodeExtend(sts: seq<Station>, i: int)
    requires sts != [] && LastOfCode(sts[..|sts| - 1], i) && sts[|sts| - 1].code != sts[i].code
    ensures LastOfCode(sts, i)
  {
    var init := sts[..|sts| - 1];
    forall j | i < j < |sts|
      ensures sts[j].code != sts[i].code
    {
      if j < |init| {
        assert init[j] == sts[j];
      }
    }
  }

  /** An entry is among the values exactly when it is stored under some code. */
  lemma ValuesMembers(d: StationMap, st: Station)
    requires Valid(d)
    ensures st in Values(d) <==> exists k :: k in d.entries && d.entries[k] == st
  {
    var vs := Values(d);
    if st in vs {
      var i :| 0 <= i < |vs| && vs[i] == st;
      assert d.order[i] in d.entries;
    }
    if k :| k in d.entries && d.entries[k] == st {
      var i :| 0 <= i < |d.order| && d.order[i] == k;
      assert vs[i] == st;
    }
  }

  /** The values of a dict are distinct, since their codes are. */
  lemma ValuesDistinct(d: StationMap)
    requires Valid(d)
    ensures NoDuplicates(Values(d))
  {
    var vs := Values(d);
    forall i, j | 0 <= i < j < |vs|
      ensures vs[i] != vs[j]
    {
      assert vs[i].code == d.order[i] && vs[j].code == d.order[j];
    }
  }

  /** The sorted values are a reordering of the dict's values, sorted by
      prefecture and then name. */
  lemma ListedSorted(sts: seq<Station>)
    ensures multiset(Listed(sts)) == multiset(Values(Fill(sts)))
    ensures forall i, j :: 0 <= i < j < |Listed(sts)| ==> !KeyLt(Listed(sts)[j], Listed(sts)[i])
  {
    PrefNameTotal();
    SortBySorted(Values(Fill(sts)), PrefNameLe);
    SortByPermutation(Values(Fill(sts)), PrefNameLe);
  }

  /** The sorted values are exactly the entries that no later entry replaces,
      each code once. */
  lemma ListedMembers(sts: seq<Station>)
    ensures forall st :: st in Listed(sts) <==> exists i :: LastOfCode(sts, i) && st == sts[i]
    ensures forall i, j :: 0 <= i < j < |Listed(sts)| ==> Listed(sts)[i].code != Listed(sts)[j].code
  {
    var d := Fill(sts);
    var vs, out := Values(d), Listed(sts);
    ListedSorted(sts);
    ValuesDistinct(d);
    PermutationKeepsDistinct(vs, out);
    FillHoldsLast(sts);
    FillHoldsOnly(sts);
    forall st
      ensures st in out <==> exists i :: LastOfCode(sts, i) && st == sts[i]
    {
      ValuesMembers(d, st);
      if i :| LastOfCode(sts, i) && st == sts[i] {
        assert d.entries[sts[i].code] == st;
      }
    }
    forall i, j | 0 <= i < j < |out|
      ensures out[i].code != out[j].code
    {
      assert out[i] in vs && out[j] in vs;
      ValuesMembers(d, out[i]);
      ValuesMembers(d, out[j]);
    }
  }

  /** Each selected entry is the entry of an accepted element. */
  lemma {:induction false} SelectedFrom<A>(xs: seq<A>, keep: A -> bool, entry: A -> Station, st: Station)
    requires st in Selected(xs, keep, entry)
    ensures exists i :: 0 <= i < |xs| && keep(xs[i]) && st == entry(xs[i])
  {
    var n := |xs| - 1;
    if st in Selected(xs[..n], keep, entry) {
      SelectedFrom(xs[..n], keep, entry, st);
      var i :| 0 <= i < n && keep(xs[..n][i]) && st == entry(xs[..n][i]);
      assert xs[i] == xs[..n][i];
    } else {
      assert keep(xs[n]) && st == entry(xs[n]);
    }
  }

  /** An accepted element whose code no later accepted element repeats
      gives an entry that is last for its code. */
  lemma {:induction false} SelectedLast<A>(xs: seq<A>, keep: A -> bool, entry: A -> Station, i: int)
    requires 0 <= i < |xs| && keep(xs[i])
    requires forall j :: i < j < |xs| && keep(xs[j]) ==> entry(xs[j]).code != entry(xs[i]).code
    ensures exists p :: LastOfCode(Selected(xs, keep, entry), p) && Selected(xs, keep, entry)[p] == entry(xs[i])
  {
    var n := |xs| - 1;
    var init := xs[..n];
    var sel := Selected(xs, keep, entry);
    if i == n {
      assert LastOfCode(sel, |sel| - 1);
    } else {
      forall j | i < j < |init| && keep(init[j])
        ensures entry(init[j]).code != entry(init[i]).code
      {
        assert init[j] == xs[j];
      }
      SelectedLast(init, keep, entry, i);
      var p :| LastOfCode(Selected(init, keep, entry), p) && Selected(init, keep, entry)[p] == entry(xs[i]);
      if keep(xs[n]) {
        assert sel == Selected(init, keep, entry) + [entry(xs[n])];
        assert sel[..|sel| - 1] == Selected(init, keep, entry);
        LastOfCodeExtend(sel, p);
        assert sel[p] == entry(xs[i]);
      } else {
        assert sel == Selected(init, keep, entry);
      }
    }
  }

  /** The station list is a reordering of the kept entries' last versions,
      sorted by prefecture and then name. */
  lemma ScrapedSorted(links: seq<(string, string)>)
    ensures multiset(Scraped(links)) == multiset(Values(Fill(Entries(links))))
    ensures forall i, j :: 0 <= i < j < |Scraped(links)| ==> !KeyLt(Scraped(links)[j], Scraped(links)[i])
  {
    ListedSorted(Entries(links));
  }

  /** The station list holds, each code once, exactly the entries of the
      kept pairs that no later kept pair replaces. */
  lemma ScrapedMembers(links: seq<(string, string)>)
    ensures forall st :: st in Scraped(links) <==>
      exists i :: LastOfCode(Entries(links), i) && st == Entries(links)[i]
    ensures forall i, j :: 0 <= i < j < |Scraped(links)| ==> Scraped(links)[i].code != Scraped(links)[j].code
  {
    ListedMembers(Entries(links));
  }

  /** Every listed station comes from a kept pair: it has a code, a stripped
      name that is neither empty nor the index page's, and the prefecture of
      its code. */
  lemma ScrapedFields(links: seq<(string, string)>, st: Station)
    requires st in Scraped(links)
    ensures st.code != "" && st.name != "" && st.name != INDEX_TITLE
    ensures st.pref == PrefForCode(st.code)
    ensures exists i :: 0 <= i < |links| && links[i].0 == st.code && Strip(links[i].1) == st.name
  {
    ListedMembers(Entries(links));
    SelectedFrom(links, Kept, Entry, st);
  }

  /** A kept pair that no later kept pair with the same code replaces is
      listed. */
  lemma ScrapedLast(links: seq<(string, string)>, i: int)
    requires 0 <= i < |links| && Kept(links[i])
    requires forall j :: i < j < |links| && Kept(links[j]) ==> links[j].0 != links[i].0
    ensures Entry(links[i]) in Scraped(links)
  {
    forall j | i < j < |links| && Kept(links[j])
      ensures Entry(links[j]).code != Entry(links[i]).code
    {
    }
    SelectedLast(links, Kept, Entry, i);
    ListedMembers(Entries(links));
  }
}
