/**
 * `buildGameFromRows` (app/lib/gameData.js): the 6 x 5 quiz board built
 * from parsed rows. A first pass files every row that has a category and a
 * finite point value under (category, points), keeping the first one; a
 * second pass collects the distinct categories in the order they are first
 * seen; the first six of them, padded with `Category k`, form the axis; and
 * `lookup` gives, for every axis category and every point value 100..500,
 * the filed clue or `null`.
 */
module Board {
  import opened Wrappers
  import opened Strings
  import opened Csv
  import opened Fields
  import opened Youtube

  /** The clue object filed for a row. */
  datatype Clue = Clue(
    category: string,
    points: int,
    clue: string,
    answer: string,
    picture: string,
    clueIsYoutube: bool,
    youtubeEmbedUrl: string)

  /** What `buildGameFromRows` returns: `{ categories, lookup }`; `None` is `null`. */
  datatype Game = Game(categories: seq<string>, lookup: map<string, map<int, Option<Clue>>>)

  /** The number of categories on the board. */
  const AxisLength: nat := 6

  /** The point values of the board, in the order `lookup` is filled. */
  const PointValues: seq<int> := [100, 200, 300, 400, 500]

  // ---------------------------------------------------------------------------
  // cells

  /** The clue object the first pass builds for a row with category `category` and points `points`. */
  function MakeClue(r: Row, category: string, points: int): Clue
  {
    var clue := Trim(Field(r, "Clue"));
    Clue(category, points, clue, Trim(Field(r, "Answer")), Trim(Field(r, "Picture")),
         IsYoutubeUrl(clue), if IsYoutubeUrl(clue) then ToYoutubeEmbed(clue) else "")
  }

  /** What the first pass files a row as: its clue when it has a category and finite points, else nothing. */
  function Filing(r: Row): Option<Clue>
  {
    var category := NormalizeCategory(r);
    var points := ToPoints(r);
    if category != "" && points.Some? then Some(MakeClue(r, category, points.value)) else None
  }

  /** The filing of every row, in order. */
  function Filings(rows: seq<Row>): (fs: seq<Option<Clue>>)
    ensures |fs| == |rows|
    decreases |rows|
  {
    if rows == [] then [] else [Filing(rows[0])] + Filings(rows[1..])
  }

  lemma {:induction false} FilingsAt(rows: seq<Row>, i: nat)
    requires i < |rows|
    ensures Filings(rows)[i] == Filing(rows[i])
    decreases i
  {
    if i > 0 {
      FilingsAt(rows[1..], i - 1);
      assert rows[1..][i - 1] == rows[i];
    }
  }

  /** A filing belongs in the cell (c, p). */
  predicate FilesAt(f: Option<Clue>, c: string, p: int)
  {
    f.Some? && f.value.category == c && f.value.points == p
  }

  /** Row `r` is a candidate for the cell (c, p). */
  predicate Fills(r: Row, c: string, p: int)
  {
    FilesAt(Filing(r), c, p)
  }

  /** A row fills the cell (c, p) exactly when its category is c, non-empty, and its points are finite and p. */
  lemma FillsMeans(r: Row, c: string, p: int)
    ensures Fills(r, c, p) <==> NormalizeCategory(r) == c && c != "" && ToPoints(r) == Some(p)
  {
  }

  /** The first filing, in input order, that belongs in the cell (c, p), if any. */
  function FirstFiled(fs: seq<Option<Clue>>, c: string, p: int): (f: Option<Clue>)
    ensures f.Some? ==> f in fs && FilesAt(f, c, p)
    decreases |fs|
  {
    if fs == [] then None
    else if FilesAt(fs[0], c, p) then fs[0]
    else FirstFiled(fs[1..], c, p)
  }

  /** The clue of the first row that fills the cell (c, p), if any: what `byCat` ends up holding. */
  function FirstClue(rows: seq<Row>, c: string, p: int): Option<Clue>
  {
    FirstFiled(Filings(rows), c, p)
  }

  /** The filings before a matching one decide first; only if none of them matches do the later ones count. */
  lemma {:induction false} FirstFiledAppend(a: seq<Option<Clue>>, b: seq<Option<Clue>>, c: string, p: int)
    ensures FirstFiled(a + b, c, p) == if FirstFiled(a, c, p).Some? then FirstFiled(a, c, p) else FirstFiled(b, c, p)
    decreases |a|
  {
    if a == [] {
      assert a + b == b;
    } else {
      assert (a + b)[0] == a[0];
      assert (a + b)[1..] == a[1..] + b;
      FirstFiledAppend(a[1..], b, c, p);
    }
  }

  /** One more filing only takes the cell if it was still empty. */
  lemma FirstFiledSnoc(fs: seq<Option<Clue>>, f: Option<Clue>, c: string, p: int)
    ensures FirstFiled(fs + [f], c, p) ==
      if FirstFiled(fs, c, p).Some? then FirstFiled(fs, c, p)
      else if FilesAt(f, c, p) then f else None
  {
    FirstFiledAppend(fs, [f], c, p);
    assert [f][1..] == [];
  }

  /** None of the first `i` filings belongs in the cell (c, p). */
  predicate NoneFilesBefore(fs: seq<Option<Clue>>, c: string, p: int, i: int)
    requires i <= |fs|
  {
    forall j :: 0 <= j < i ==> !FilesAt(fs[j], c, p)
  }

  lemma {:induction false} FirstFiledIsFirst(fs: seq<Option<Clue>>, c: string, p: int)
    ensures FirstFiled(fs, c, p).None? <==> NoneFilesBefore(fs, c, p, |fs|)
    ensures forall i :: 0 <= i < |fs| && FilesAt(fs[i], c, p) && NoneFilesBefore(fs, c, p, i) ==>
      FirstFiled(fs, c, p) == fs[i]
    decreases |fs|
  {
    if fs != [] {
      var tail := fs[1..];
      FirstFiledIsFirst(tail, c, p);
      forall i | 0 < i < |fs| && FilesAt(fs[i], c, p) && NoneFilesBefore(fs, c, p, i)
        ensures FirstFiled(fs, c, p) == fs[i]
      {
        assert !FilesAt(fs[0], c, p);
        assert tail[i - 1] == fs[i];
        forall j | 0 <= j < i - 1 ensures !FilesAt(tail[j], c, p) {
          assert tail[j] == fs[j + 1];
        }
        assert NoneFilesBefore(tail, c, p, i - 1);
      }
      if !FilesAt(fs[0], c, p) {
        if NoneFilesBefore(tail, c, p, |tail|) {
          forall j | 0 < j < |fs| ensures !FilesAt(fs[j], c, p) {
            assert fs[j] == tail[j - 1];
          }
        }
        if NoneFilesBefore(fs, c, p, |fs|) {
          forall j | 0 <= j < |tail| ensures !FilesAt(tail[j], c, p) {
            assert tail[j] == fs[j + 1];
          }
        }
      }
    }
  }

  /**
   * First occurrence wins: the cell (c, p) is empty exactly when no row's
   * filing belongs in it, and otherwise holds the filing of the first row
   * that fills it.
   */
  lemma FirstClueIsFirst(rows: seq<Row>, c: string, p: int)
    ensures FirstClue(rows, c, p).None? <==> forall j :: 0 <= j < |rows| ==> !Fills(rows[j], c, p)
    ensures forall i :: 0 <= i < |rows| && Fills(rows[i], c, p) && (forall j :: 0 <= j < i ==> !Fills(rows[j], c, p)) ==>
      FirstClue(rows, c, p) == Filing(rows[i])
  {
    var fs := Filings(rows);
    FirstFiledIsFirst(fs, c, p);
    forall j | 0 <= j < |rows| {
      FilingsAt(rows, j);
    }
    forall i | 0 <= i < |rows| && Fills(rows[i], c, p) && (forall j :: 0 <= j < i ==> !Fills(rows[j], c, p))
      ensures FirstClue(rows, c, p) == Filing(rows[i])
    {
      assert NoneFilesBefore(fs, c, p, i);
    }
  }

  /** A row without a category or without finite points is filed as nothing. */
  lemma IneligibleRowFiledAsNothing(r: Row)
    requires NormalizeCategory(r) == "" || ToPoints(r).None?
    ensures Filing(r) == None
  {
  }

  /** A filing that is nothing never takes a cell, wherever it stands. */
  lemma NothingIgnored(a: seq<Option<Clue>>, b: seq<Option<Clue>>, c: string, p: int)
    ensures FirstFiled(a + [None] + b, c, p) == FirstFiled(a + b, c, p)
  {
    var none: seq<Option<Clue>> := [None];
    FirstFiledAppend(a, none + b, c, p);
    FirstFiledAppend(a, b, c, p);
    FirstFiledAppend(none, b, c, p);
    assert a + none + b == a + (none + b);
    assert none[1..] == [];
  }

  /**
   * A filled cell (c, p) holds a clue of category c, which is non-empty, and
   * points p; its texts are trimmed; and it has an embed URL exactly when its
   * clue text passes the YouTube test, namely the rewritten clue.
   */
  lemma FilledCell(rows: seq<Row>, c: string, p: int)
    requires FirstClue(rows, c, p).Some?
    ensures var cl := FirstClue(rows, c, p).value;
      && cl.category == c && c != "" && cl.points == p
      && Trim(cl.clue) == cl.clue && Trim(cl.answer) == cl.answer && Trim(cl.picture) == cl.picture
      && cl.clueIsYoutube == IsYoutubeUrl(cl.clue)
      && (cl.youtubeEmbedUrl != "" <==> cl.clueIsYoutube)
      && (cl.clueIsYoutube ==> cl.youtubeEmbedUrl == ToYoutubeEmbed(cl.clue))
  {
    var fs := Filings(rows);
    var f := FirstFiled(fs, c, p);
    var i :| 0 <= i < |fs| && fs[i] == f;
    var r := rows[i];
    FilingsAt(rows, i);
    TrimIdempotent(Field(r, "Clue"));
    TrimIdempotent(Field(r, "Answer"));
    TrimIdempotent(Field(r, "Picture"));
    var clue := Trim(Field(r, "Clue"));
    if IsYoutubeUrl(clue) {
      var e := ToYoutubeEmbed(clue);
      assert e == clue || |e| > |EmbedPrefix|;
      assert clue != "";
    }
  }

  // ---------------------------------------------------------------------------
  // the category axis

  /** The normalised category of every row, in order. */
  function Categories(rows: seq<Row>): (cats: seq<string>)
    ensures |cats| == |rows|
    decreases |rows|
  {
    if rows == [] then [] else [NormalizeCategory(rows[0])] + Categories(rows[1..])
  }

  lemma {:induction false} CategoriesAt(rows: seq<Row>, i: nat)
    requires i < |rows|
    ensures Categories(rows)[i] == NormalizeCategory(rows[i])
    decreases i
  {
    if i > 0 {
      CategoriesAt(rows[1..], i - 1);
      assert rows[1..][i - 1] == rows[i];
    }
  }

  /** `allCategoriesInOrder`: each non-empty category once, when it is first seen. */
  function FirstSeen(cats: seq<string>): seq<string>
    decreases |cats|
  {
    if cats == [] then []
    else
      var before := FirstSeen(cats[..|cats| - 1]);
      var c := cats[|cats| - 1];
      if c != "" && c !in before then before + [c] else before
  }

  /** One more category is listed unless it is empty or listed already. */
  lemma FirstSeenStep(cats: seq<string>, i: nat)
    requires i < |cats|
    ensures FirstSeen(cats[..i + 1]) ==
      if cats[i] != "" && cats[i] !in FirstSeen(cats[..i]) then FirstSeen(cats[..i]) + [cats[i]] else FirstSeen(cats[..i])
  {
    assert cats[..i + 1][..i] == cats[..i];
  }

  /** No name occurs twice. */
  predicate Distinct(d: seq<string>)
  {
    forall a, b :: 0 <= a < b < |d| ==> d[a] != d[b]
  }

  /** Every name of `d` first occurs in `cats` before every later name of `d` does. */
  predicate InFirstSeenOrder(d: seq<string>, cats: seq<string>)
  {
    forall a, b, i :: 0 <= a < b < |d| && 0 <= i < |cats| && cats[i] == d[b] ==> d[a] in cats[..i]
  }

  /**
   * `FirstSeen` lists exactly the non-empty categories, each once, ordered
   * by first occurrence: wherever a later entry occurs, an earlier entry has
   * occurred before it.
   */
  lemma {:induction false} FirstSeenFacts(cats: seq<string>)
    ensures Distinct(FirstSeen(cats))
    ensures forall c :: c in FirstSeen(cats) <==> c != "" && c in cats
    ensures InFirstSeenOrder(FirstSeen(cats), cats)
    decreases |cats|
  {
    if cats != [] {
      var init, c := cats[..|cats| - 1], cats[|cats| - 1];
      FirstSeenFacts(init);
      var before, d := FirstSeen(init), FirstSeen(cats);
      assert cats == init + [c];
      assert forall x :: x in cats <==> x in init || x == c;
      assert forall a :: 0 <= a < |before| ==> d[a] == before[a];
      if c != "" && c !in before {
        assert d == before + [c];
        forall a, b | 0 <= a < b < |d| ensures d[a] != d[b] {
          if b == |before| {
            assert d[a] in before;
          }
        }
      } else {
        assert d == before;
      }
      forall a, b, i | 0 <= a < b < |d| && 0 <= i < |cats| && cats[i] == d[b]
        ensures d[a] in cats[..i]
      {
        if i < |cats| - 1 {
          assert cats[..i] == init[..i];
          assert init[i] == cats[i];
          if b < |before| {
            assert d[a] == before[a] && d[b] == before[b];
          } else {
            assert false;
          }
        } else {
          assert cats[..i] == init;
          assert d[a] == before[a];
          assert d[a] in before;
        }
      }
    }
  }

  /** The placeholder name of the 1-based slot `k`. */
  function PadName(k: nat): string
  {
    "Category " + DecimalString(k)
  }

  /** The padding loop (app/lib/gameData.js:97): placeholder names appended until there are six. */
  function Padded(t: seq<string>): (r: seq<string>)
    ensures |t| <= AxisLength ==> |r| == AxisLength
    decreases AxisLength - |t|
  {
    if |t| >= AxisLength then t else Padded(t + [PadName(|t| + 1)])
  }

  lemma {:induction false} PaddedFacts(t: seq<string>)
    requires |t| <= AxisLength
    ensures |Padded(t)| == AxisLength
    ensures forall k :: 0 <= k < AxisLength ==> Padded(t)[k] == if k < |t| then t[k] else PadName(k + 1)
    decreases AxisLength - |t|
  {
    if |t| < AxisLength {
      PaddedFacts(t + [PadName(|t| + 1)]);
    }
  }

  /** `categories` for the row categories `cats`: the first six distinct ones, padded. */
  function AxisOf(cats: seq<string>): (axis: seq<string>)
    ensures |axis| == AxisLength
  {
    var d := FirstSeen(cats);
    Padded(if |d| <= AxisLength then d else d[..AxisLength])
  }

  /** `categories`, from the rows. */
  function Axis(rows: seq<Row>): (axis: seq<string>)
    ensures |axis| == AxisLength
  {
    AxisOf(Categories(rows))
  }

  /**
   * The axis has exactly six names: the first (up to six) distinct non-empty
   * categories in first-seen order, then `Category k` for each remaining
   * 1-based slot k. No name is empty, the first-seen part is free of
   * repeats, and categories first seen after the sixth are not on it.
   */
  lemma AxisFacts(cats: seq<string>)
    ensures |AxisOf(cats)| == AxisLength
    ensures var d := FirstSeen(cats);
      forall k :: 0 <= k < AxisLength ==> AxisOf(cats)[k] == if k < |d| then d[k] else PadName(k + 1)
    ensures forall k :: 0 <= k < AxisLength ==> AxisOf(cats)[k] != ""
    ensures var d := FirstSeen(cats);
      forall a, b :: 0 <= a < b < AxisLength && b < |d| ==> AxisOf(cats)[a] != AxisOf(cats)[b]
    ensures var d := FirstSeen(cats);
      forall k :: AxisLength <= k < |d| ==> d[k] !in AxisOf(cats)
  {
    var d := FirstSeen(cats);
    FirstSeenFacts(cats);
    var t := if |d| <= AxisLength then d else d[..AxisLength];
    PaddedFacts(t);
    var axis := AxisOf(cats);
    assert axis == Padded(t);
    forall k | 0 <= k < AxisLength ensures axis[k] != "" {
      if k < |d| {
        assert d[k] in d;
      } else {
        assert |PadName(k + 1)| > 0;
      }
    }
    forall a, b | 0 <= a < b < AxisLength && b < |d| ensures axis[a] != axis[b] {
      assert axis[a] == d[a] && axis[b] == d[b];
    }
    forall k | AxisLength <= k < |d| ensures d[k] !in axis {
      assert axis == d[..AxisLength];
      assert forall a :: 0 <= a < AxisLength ==> axis[a] == d[a] != d[k];
    }
  }

  /** The axis reads only the categories: a row's `Points` value, valid or not, plays no part in it. */
  lemma AxisIgnoresPoints(rows: seq<Row>, i: nat, v: string)
    requires i < |rows|
    ensures Axis(rows[i := rows[i]["Points" := v]]) == Axis(rows)
  {
    var changed := rows[i := rows[i]["Points" := v]];
    forall j | 0 <= j < |rows| ensures Categories(changed)[j] == Categories(rows)[j] {
      CategoriesAt(rows, j);
      CategoriesAt(changed, j);
      if j == i {
        NormalizeCategoryPriority(rows[i]);
        NormalizeCategoryPriority(changed[i]);
        assert "Points"[0] != "Catagory"[0] && "Points"[0] != "Category"[0] && "Points"[0] != "category"[0];
      }
    }
    assert Categories(changed) == Categories(rows);
  }

  /**
   * The padded axis may repeat a name: a category literally called
   * `Category 2` meets the placeholder of slot 2.
   */
  lemma AxisMayRepeat(rows: seq<Row>, name: string)
    requires name == "Category 2" && rows == [map["Category" := name]]
    ensures Axis(rows)[0] == Axis(rows)[1] == name
  {
    CategoryAliasesAgree(name);
    TrimPadded([], name, []);
    assert [] + name + [] == name;
    CategoriesAt(rows, 0);
    var cats := Categories(rows);
    assert cats == [name];
    assert FirstSeen(cats) == [name] by {
      assert cats[..0] == [];
    }
    AxisFacts(cats);
    assert DecimalString(2) == "2";
  }

  // ---------------------------------------------------------------------------
  // the builder

  /** The clue filed under category `c` and points `p`, or `null` when there is none (app/lib/gameData.js:116). */
  function Cell(byCat: map<string, map<int, Clue>>, c: string, p: int): Option<Clue>
  {
    if c in byCat && p in byCat[c] then Some(byCat[c][p]) else None
  }

  /** `byCat` after one row's filing: a clue is stored only in a cell that is still empty. */
  function File(byCat: map<string, map<int, Clue>>, f: Option<Clue>): map<string, map<int, Clue>>
  {
    if f.None? then byCat
    else
      var c, p := f.value.category, f.value.points;
      var catMap := if c in byCat then byCat[c] else map[];
      if p in catMap then byCat[c := catMap] else byCat[c := catMap[p := f.value]]
  }

  /** A row filed as nothing leaves `byCat` as it is. */
  lemma FileNothing(byCat: map<string, map<int, Clue>>)
    ensures File(byCat, None) == byCat
  {
  }

  /** Filing keeps `byCat` in step with `FirstFiled`: every cell holds the first filing that belongs in it. */
  lemma FileKeepsFirst(byCat: map<string, map<int, Clue>>, fs: seq<Option<Clue>>, i: nat)
    requires i < |fs|
    requires forall c, p :: Cell(byCat, c, p) == FirstFiled(fs[..i], c, p)
    ensures forall c, p :: Cell(File(byCat, fs[i]), c, p) == FirstFiled(fs[..i + 1], c, p)
  {
    assert fs[..i + 1] == fs[..i] + [fs[i]];
    forall c, p ensures Cell(File(byCat, fs[i]), c, p) == FirstFiled(fs[..i + 1], c, p) {
      FirstFiledSnoc(fs[..i], fs[i], c, p);
    }
  }

  /**
   * Stores a clue under its category and points unless that cell already
   * holds one: duplicates keep the first occurrence.
   */
  method Store(byCat: map<string, map<int, Clue>>, entry: Clue) returns (updated: map<string, map<int, Clue>>)
    ensures updated == File(byCat, Some(entry))
  {
    updated := byCat;
    if entry.category !in updated {
      updated := updated[entry.category := map[]];
    }
    var catMap := updated[entry.category];
    if entry.points !in catMap {
      catMap := catMap[entry.points := entry];
      updated := updated[entry.category := catMap];
    }
  }

  /** One pass of the first loop of `buildGameFromRows`: files row `r` into `byCat`. */
  method FileRow(byCat: map<string, map<int, Clue>>, r: Row) returns (updated: map<string, map<int, Clue>>)
    ensures updated == File(byCat, Filing(r))
  {
    var category := NormalizeCategory(r);
    var points := ToPoints(r);
    if category == "" || points.None? {
      assert Filing(r) == None;
      FileNothing(byCat);
      return byCat;
    }
    var clue := Trim(Field(r, "Clue"));
    var answer := Trim(Field(r, "Answer"));
    var picture := Trim(Field(r, "Picture"));
    var isYoutube := IsYoutubeUrl(clue);
    var entry := Clue(category, points.value, clue, answer, picture,
                      isYoutube, if isYoutube then ToYoutubeEmbed(clue) else "");
    assert Filing(r) == Some(entry);
    updated := Store(byCat, entry);
  }

  /** The first loop of `buildGameFromRows`: every cell of `byCat` holds the first clue filed there. */
  method FileAll(rows: seq<Row>) returns (byCat: map<string, map<int, Clue>>)
    ensures forall c, p :: Cell(byCat, c, p) == FirstClue(rows, c, p)
  {
    ghost var fs := Filings(rows);
    byCat := map[];
    for i := 0 to |rows|
      invariant forall c, p :: Cell(byCat, c, p) == FirstFiled(fs[..i], c, p)
    {
      FilingsAt(rows, i);
      FileKeepsFirst(byCat, fs, i);
      byCat := FileRow(byCat, rows[i]);
    }
    assert fs[..|rows|] == fs;
  }

  /** The second loop of `buildGameFromRows`: `allCategoriesInOrder`. */
  method CollectCategories(rows: seq<Row>) returns (order: seq<string>)
    ensures order == FirstSeen(Categories(rows))
  {
    ghost var cats := Categories(rows);
    order := [];
    for i := 0 to |rows|
      invariant order == FirstSeen(cats[..i])
    {
      FirstSeenStep(cats, i);
      CategoriesAt(rows, i);
      var c := NormalizeCategory(rows[i]);
      if c != "" && c !in order {
        order := order + [c];
      }
    }
    assert cats[..|rows|] == cats;
  }

  /**
   * The last loop of `buildGameFromRows`: an entry for every category, and
   * inside it one for each point value 100..500, holding that cell of
   * `byCat` or `null`.
   */
  method BuildLookup(categories: seq<string>, byCat: map<string, map<int, Clue>>)
    returns (lookup: map<string, map<int, Option<Clue>>>)
    ensures lookup.Keys == set c | c in categories
    ensures forall c :: c in lookup ==> lookup[c].Keys == {100, 200, 300, 400, 500}
    ensures forall c, p :: c in lookup && p in lookup[c] ==> lookup[c][p] == Cell(byCat, c, p)
  {
    lookup := map[];
    for k := 0 to |categories|
      invariant lookup.Keys == set c | c in categories[..k]
      invariant forall c :: c in lookup ==> lookup[c].Keys == {100, 200, 300, 400, 500}
      invariant forall c, p :: c in lookup && p in lookup[c] ==> lookup[c][p] == Cell(byCat, c, p)
    {
      var cat := categories[k];
      var cells: map<int, Option<Clue>> := map[];
      for q := 0 to |PointValues|
        invariant cells.Keys == set p | p in PointValues[..q]
        invariant forall p :: p in cells ==> cells[p] == Cell(byCat, cat, p)
      {
        assert PointValues[..q + 1] == PointValues[..q] + [PointValues[q]];
        cells := cells[PointValues[q] := Cell(byCat, cat, PointValues[q])];
      }
      assert PointValues[..|PointValues|] == PointValues;
      assert categories[..k + 1] == categories[..k] + [cat];
      lookup := lookup[cat := cells];
    }
    assert categories[..|categories|] == categories;
  }

  /**
   * `buildGameFromRows(rows)`: the categories are the axis; `lookup` has an
   * entry for each axis category and, inside it, one for each point value
   * 100..500, holding the clue of the first row with that category and
   * those points, or `null`.
   */
  method BuildGameFromRows(rows: seq<Row>) returns (game: Game)
    ensures game.categories == Axis(rows)
    ensures game.lookup.Keys == set c | c in Axis(rows)
    ensures forall c :: c in game.lookup ==> game.lookup[c].Keys == {100, 200, 300, 400, 500}
    ensures forall c, p :: c in game.lookup && p in game.lookup[c] ==> game.lookup[c][p] == FirstClue(rows, c, p)
  {
    var byCat := FileAll(rows);
    var order := CollectCategories(rows);
    // first six, padded
    var categories := if |order| <= AxisLength then order else order[..AxisLength];
    while |categories| < AxisLength
      invariant |categories| <= AxisLength
      invariant Padded(categories) == Axis(rows)
      decreases AxisLength - |categories|
    {
      categories := categories + [PadName(|categories| + 1)];
    }
    var lookup := BuildLookup(categories, byCat);
    game := Game(categories, lookup);
  }
}
