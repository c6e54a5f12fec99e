/** Output assembly: the colour table `saveColors` writes (header and one row
    per zone, column groups chosen by the output toggles), the histogram
    table header of `saveHistogram`, and the choice of a fresh analysis
    directory name in `analyzeContours`. Numbers are kept as values; their
    decimal text is not modelled. */
module Output {
  import opened Basics
  import opened Color
  import opened Text

  /** The output toggles: RGB, HSV and Lab columns. */
  datatype Toggles = Toggles(rgb: bool, hsv: bool, lab: bool)

  /** One table cell: a zone number, a value, the square root of a variance
      (a standard deviation column), or the empty spacer between groups. */
  datatype Cell = Label(n: nat) | Value(x: real) | RootOf(variance: real) | Spacer

  /** The colour table: the header line and one row per zone. */
  datatype Table = Table(header: string, rows: seq<seq<Cell>>)

  /** The pieces the source appends to the header for each group. */
  const RgbHeader: string := ",R,G,B,std R,std G,std B,"
  const GrayHeader: string := ",Gray,std Gray,"
  const HsvHeader: string := ",H,S,V,std H,std S,std V,"
  const LabHeader: string := ",L,a,b,std L,std a,std b,"
  const AreaHeader: string := ",Area [pixels]"

  /** The header as the source builds it, piece by piece. */
  function SourceHeader(t: Toggles): string {
    "id"
    + (if t.rgb then RgbHeader else "")
    + GrayHeader
    + (if t.hsv then HsvHeader else "")
    + (if t.lab then LabHeader else "")
    + AreaHeader
  }

  /** Column names of the groups; each group ends with its spacer column. */
  const RgbNames: seq<string> := ["R", "G", "B", "std R", "std G", "std B", ""]
  const GrayNames: seq<string> := ["Gray", "std Gray", ""]
  const HsvNames: seq<string> := ["H", "S", "V", "std H", "std S", "std V", ""]
  const LabNames: seq<string> := ["L", "a", "b", "std L", "std a", "std b", ""]

  /** The table's column names, in order. */
  function ColumnNames(t: Toggles): (names: seq<string>)
    ensures |names| == 5 + (if t.rgb then 7 else 0) + (if t.hsv then 7 else 0) + (if t.lab then 7 else 0)
    ensures names[0] == "id" && names[|names| - 1] == "Area [pixels]"
    ensures forall k :: 0 <= k < |names| ==> CommaFree(names[k])
  {
    GroupsCommaFree();
    ["id"] + (if t.rgb then RgbNames else []) + GrayNames
    + (if t.hsv then HsvNames else []) + (if t.lab then LabNames else []) + ["Area [pixels]"]
  }

  lemma GroupsCommaFree()
    ensures forall k :: 0 <= k < |RgbNames| ==> CommaFree(RgbNames[k])
    ensures forall k :: 0 <= k < |GrayNames| ==> CommaFree(GrayNames[k])
    ensures forall k :: 0 <= k < |HsvNames| ==> CommaFree(HsvNames[k])
    ensures forall k :: 0 <= k < |LabNames| ==> CommaFree(LabNames[k])
    ensures CommaFree("id") && CommaFree("Area [pixels]")
  {
  }

  /** Where the groups sit when RGB output is on: the Gray pair right after
      the RGB group, and the HSV and Lab groups present exactly when chosen. */
  lemma ColumnFacts(t: Toggles)
    requires t.rgb
    ensures ColumnNames(t)[1] == "R" && ColumnNames(t)[8] == "Gray" && ColumnNames(t)[9] == "std Gray"
    ensures "H" in ColumnNames(t) <==> t.hsv
    ensures "L" in ColumnNames(t) <==> t.lab
  {
    var names := ColumnNames(t);
    if t.hsv {
      assert names[11] == "H";
    }
    if t.lab {
      assert names[|names| - 8] == "L";
    }
  }

  /** Each group's names, joined and led by a comma, are the piece the source
      appends for it. */
  lemma RgbText()
    ensures "," + Join(RgbNames) == RgbHeader
  {
    var n := RgbNames;
    assert Join(n[5..]) == "std B" + "," + Join(n[6..]);
    assert Join(n[4..]) == "std G" + "," + Join(n[5..]);
    assert Join(n[3..]) == "std R" + "," + Join(n[4..]);
    assert Join(n[2..]) == "B" + "," + Join(n[3..]);
    assert Join(n[1..]) == "G" + "," + Join(n[2..]);
    assert Join(n) == "R" + "," + Join(n[1..]);
  }

  lemma GrayText()
    ensures "," + Join(GrayNames) == GrayHeader
  {
    var n := GrayNames;
    assert Join(n[1..]) == "std Gray" + "," + Join(n[2..]);
    assert Join(n) == "Gray" + "," + Join(n[1..]);
  }

  lemma HsvText()
    ensures "," + Join(HsvNames) == HsvHeader
  {
    var n := HsvNames;
    assert Join(n[5..]) == "std V" + "," + Join(n[6..]);
    assert Join(n[4..]) == "std S" + "," + Join(n[5..]);
    assert Join(n[3..]) == "std H" + "," + Join(n[4..]);
    assert Join(n[2..]) == "V" + "," + Join(n[3..]);
    assert Join(n[1..]) == "S" + "," + Join(n[2..]);
    assert Join(n) == "H" + "," + Join(n[1..]);
  }

  lemma LabText()
    ensures "," + Join(LabNames) == LabHeader
  {
    var n := LabNames;
    assert Join(n[5..]) == "std b" + "," + Join(n[6..]);
    assert Join(n[4..]) == "std a" + "," + Join(n[5..]);
    assert Join(n[3..]) == "std L" + "," + Join(n[4..]);
    assert Join(n[2..]) == "b" + "," + Join(n[3..]);
    assert Join(n[1..]) == "a" + "," + Join(n[2..]);
    assert Join(n) == "L" + "," + Join(n[1..]);
  }

  lemma AreaText()
    ensures "," + Join(["Area [pixels]"]) == AreaHeader
  {
  }

  /** Appending a group's piece is joining its names on. */
  lemma AppendGroup(front: seq<string>, group: seq<string>, piece: string)
    requires |front| >= 1 && |group| >= 1
    requires "," + Join(group) == piece
    ensures Join(front + group) == Join(front) + piece
  {
    JoinAppend(front, group);
  }

  /** Appending a group that a toggle may switch off. */
  lemma AppendOptional(front: seq<string>, on: bool, group: seq<string>, piece: string)
    requires |front| >= 1 && |group| >= 1
    requires "," + Join(group) == piece
    ensures Join(front + (if on then group else [])) == Join(front) + (if on then piece else "")
  {
    if on {
      AppendGroup(front, group, piece);
    } else {
      assert front + [] == front;
      assert Join(front) + "" == Join(front);
    }
  }

  /** The source's header is the column names joined by commas. */
  lemma SourceHeaderIsJoin(t: Toggles)
    ensures SourceHeader(t) == Join(ColumnNames(t))
  {
    RgbText();
    GrayText();
    HsvText();
    LabText();
    AreaText();
    var a := ["id"] + (if t.rgb then RgbNames else []);
    AppendOptional(["id"], t.rgb, RgbNames, RgbHeader);
    var b := a + GrayNames;
    AppendGroup(a, GrayNames, GrayHeader);
    var c := b + (if t.hsv then HsvNames else []);
    AppendOptional(b, t.hsv, HsvNames, HsvHeader);
    var d := c + (if t.lab then LabNames else []);
    AppendOptional(c, t.lab, LabNames, LabHeader);
    AppendGroup(d, ["Area [pixels]"], AreaHeader);
  }

  /** The cells of one zone under the RGB, Gray, HSV and Lab groups. */
  function StatsCells(s: ColorStats): (cells: seq<Cell>)
    ensures |cells| == 7
  {
    [Value(s.mean.c0), Value(s.mean.c1), Value(s.mean.c2),
     RootOf(s.variance.c0), RootOf(s.variance.c1), RootOf(s.variance.c2), Spacer]
  }

  function GrayCells(z: ZoneRecord): (cells: seq<Cell>)
    ensures |cells| == 3
  {
    [Value(Gray(z.rgb.mean)), RootOf(GrayVariance(z.rgb.variance)), Spacer]
  }

  /** Row `i` (0-based) of the table: the zone number i+1, the chosen groups
      and the area. */
  function RowCells(t: Toggles, i: nat, z: ZoneRecord): (row: seq<Cell>)
    ensures |row| == 5 + (if t.rgb then 7 else 0) + (if t.hsv then 7 else 0) + (if t.lab then 7 else 0)
    ensures row[0] == Label(i + 1) && row[|row| - 1] == Value(z.area)
    ensures t.rgb ==> (row[1] == Value(z.rgb.mean.c0) && row[8] == Value(Gray(z.rgb.mean))
                       && row[9] == RootOf(GrayVariance(z.rgb.variance)))
    ensures t.rgb ==> row[1..8] == StatsCells(z.rgb) && row[8..11] == GrayCells(z)
    ensures var o := 1 + (if t.rgb then 7 else 0) + 3;
      t.hsv ==> row[o..o + 7] == StatsCells(HsvUnits(z.hsv))
    ensures var o := 1 + (if t.rgb then 7 else 0) + 3 + (if t.hsv then 7 else 0);
      t.lab ==> row[o..o + 7] == StatsCells(LabUnits(z.lab))
  {
    var rgb := if t.rgb then StatsCells(z.rgb) else [];
    var hsv := if t.hsv then StatsCells(HsvUnits(z.hsv)) else [];
    var lab := if t.lab then StatsCells(LabUnits(z.lab)) else [];
    var toRgb := [Label(i + 1)] + rgb;
    var toGray := toRgb + GrayCells(z);
    var toHsv := toGray + hsv;
    var toLab := toHsv + lab;
    var row := toLab + [Value(z.area)];
    assert toRgb <= toGray <= toHsv <= toLab <= row;
    BlockAt([Label(i + 1)], rgb, row);
    BlockAt(toRgb, GrayCells(z), row);
    BlockAt(toGray, hsv, row);
    BlockAt(toHsv, lab, row);
    row
  }

  /** Names and cells line up: the same number, and the empty names exactly
      over the spacer cells. */
  predicate Aligned(names: seq<string>, cells: seq<Cell>) {
    |names| == |cells| && forall c :: 0 <= c < |names| ==> (names[c] == "" <==> cells[c] == Spacer)
  }

  lemma AlignedAppend(n1: seq<string>, c1: seq<Cell>, n2: seq<string>, c2: seq<Cell>)
    requires Aligned(n1, c1) && Aligned(n2, c2)
    ensures Aligned(n1 + n2, c1 + c2)
  {
    forall c | 0 <= c < |n1 + n2| ensures ((n1 + n2)[c] == "" <==> (c1 + c2)[c] == Spacer) {
      if c >= |n1| {
        assert (n1 + n2)[c] == n2[c - |n1|] && (c1 + c2)[c] == c2[c - |n1|];
      }
    }
  }

  /** Every row lines up with the column names. */
  lemma RowAligned(t: Toggles, i: nat, z: ZoneRecord)
    ensures Aligned(ColumnNames(t), RowCells(t, i, z))
  {
    var stats := [StatsCells(z.rgb), StatsCells(HsvUnits(z.hsv)), StatsCells(LabUnits(z.lab))];
    assert Aligned(RgbNames, StatsCells(z.rgb));
    assert Aligned(HsvNames, StatsCells(HsvUnits(z.hsv)));
    assert Aligned(LabNames, StatsCells(LabUnits(z.lab)));
    assert Aligned(GrayNames, GrayCells(z));
    var n1, c1 := ["id"] + (if t.rgb then RgbNames else []), [Label(i + 1)] + (if t.rgb then StatsCells(z.rgb) else []);
    AlignedAppend(["id"], [Label(i + 1)], if t.rgb then RgbNames else [], if t.rgb then StatsCells(z.rgb) else []);
    AlignedAppend(n1, c1, GrayNames, GrayCells(z));
    var n2, c2 := n1 + GrayNames, c1 + GrayCells(z);
    AlignedAppend(n2, c2, if t.hsv then HsvNames else [], if t.hsv then StatsCells(HsvUnits(z.hsv)) else []);
    var n3, c3 := n2 + (if t.hsv then HsvNames else []), c2 + (if t.hsv then StatsCells(HsvUnits(z.hsv)) else []);
    AlignedAppend(n3, c3, if t.lab then LabNames else [], if t.lab then StatsCells(LabUnits(z.lab)) else []);
    var n4, c4 := n3 + (if t.lab then LabNames else []), c3 + (if t.lab then StatsCells(LabUnits(z.lab)) else []);
    AlignedAppend(n4, c4, ["Area [pixels]"], [Value(z.area)]);
  }

  /** `saveColors`. With RGB output off the source reads the RGB averages
      before they are bound and raises; otherwise the header is split by
      commas into exactly one name per column, the empty names stand over
      the spacer columns, the Gray columns are always there and each other
      group is there exactly when its toggle is on. */
  function SaveColors(t: Toggles, zones: seq<ZoneRecord>): (r: Result<Table>)
    ensures r.Failure? <==> !t.rgb
    ensures r.Failure? ==> r.error == UnboundRgb
    ensures r.Success? ==> Split(r.value.header) == ColumnNames(t)
    ensures r.Success? ==> |r.value.rows| == |zones|
    ensures r.Success? ==> forall i :: 0 <= i < |zones| ==> Aligned(Split(r.value.header), r.value.rows[i])
    ensures r.Success? ==> Split(r.value.header)[8] == "Gray" && Split(r.value.header)[9] == "std Gray"
    ensures r.Success? ==> ("H" in Split(r.value.header) <==> t.hsv) && ("L" in Split(r.value.header) <==> t.lab)
    ensures r.Success? ==> forall i :: 0 <= i < |zones| ==> r.value.rows[i] == RowCells(t, i, zones[i])
    ensures r.Success? ==> forall i :: 0 <= i < |zones| ==>
      |r.value.rows[i]| >= 12 && r.value.rows[i][0] == Label(i + 1)
      && r.value.rows[i][8] == Value(Gray(zones[i].rgb.mean))
  {
    if !t.rgb then Failure(UnboundRgb)
    else
      var header := SourceHeader(t);
      SourceHeaderIsJoin(t);
      SplitJoin(ColumnNames(t));
      ColumnFacts(t);
      var rows := seq(|zones|, i requires 0 <= i < |zones| => RowCells(t, i, zones[i]));
      assert forall i :: 0 <= i < |zones| ==> Aligned(Split(header), rows[i]) by {
        forall i | 0 <= i < |zones| ensures Aligned(Split(header), rows[i]) {
          RowAligned(t, i, zones[i]);
        }
      }
      Success(Table(header, rows))
  }

  /** `saveHistogram`'s header: four fields over the four columns of a row
      (bin, red, green, blue). The source writes a space after each comma,
      which stays in the field names. */
  const HistogramHeader: string := "bin," + " Red Channel," + " Green Channel," + " Blue Channel"
  const HistogramFields: seq<string> := ["bin", " Red Channel", " Green Channel", " Blue Channel"]

  lemma HistogramHeaderIsJoin()
    ensures Join(HistogramFields) == HistogramHeader
  {
    var fs := HistogramFields;
    assert Join(fs[3..]) == " Blue Channel";
    assert Join(fs[2..]) == " Green Channel" + "," + Join(fs[3..]);
    assert Join(fs[1..]) == " Red Channel" + "," + Join(fs[2..]);
    assert Join(fs) == "bin" + "," + Join(fs[1..]);
  }

  lemma HistogramHeaderFields()
    ensures |Split(HistogramHeader)| == 4
    ensures Split(HistogramHeader) == HistogramFields
  {
    HistogramHeaderIsJoin();
    assert forall k :: 0 <= k < |HistogramFields| ==> CommaFree(HistogramFields[k]);
    SplitJoin(HistogramFields);
  }

  /** The `n`-th directory name tried for an analysis of the image whose path
      without extension is `stem`: `stem_analysis`, then `stem_analysis_1`,
      `stem_analysis_2`, ... */
  function Candidate(stem: string, n: nat): string {
    if n == 0 then stem + "_analysis" else stem + "_analysis" + "_" + NatToString(n)
  }

  /** Different attempts try different names. */
  lemma CandidateInjective(stem: string, m: nat, n: nat)
    requires Candidate(stem, m) == Candidate(stem, n)
    ensures m == n
  {
    var p := stem + "_analysis";
    if m != 0 && n != 0 {
      var a, b := Candidate(stem, m), Candidate(stem, n);
      assert a == p + ("_" + NatToString(m)) && b == p + ("_" + NatToString(n));
      assert a[|p| + 1..] == NatToString(m);
      assert b[|p| + 1..] == NatToString(n);
      NatToStringInjective(m, n);
    }
  }

  /** Names of earlier attempts are not the name of this one. */
  lemma NotYetTried(stem: string, num: nat, tried: set<string>)
    requires forall s :: s in tried ==> exists m :: 0 <= m < num && s == Candidate(stem, m)
    ensures Candidate(stem, num) !in tried
  {
    if Candidate(stem, num) in tried {
      var m :| 0 <= m < num && Candidate(stem, num) == Candidate(stem, m);
      CandidateInjective(stem, m, num);
    }
  }

  /** The directory-naming loop: try the candidates in order until one does
      not exist yet. It stops because every failed attempt uses up a
      different one of the finitely many existing names. */
  method FreshDirName(stem: string, existing: set<string>) returns (dir: string, num: nat)
    ensures dir == Candidate(stem, num)
    ensures dir !in existing
    ensures forall m :: 0 <= m < num ==> Candidate(stem, m) in existing
  {
    num := 0;
    dir := Candidate(stem, 0);
    ghost var tried: set<string> := {};
    while dir in existing
      invariant dir == Candidate(stem, num)
      invariant tried <= existing
      invariant forall m :: 0 <= m < num ==> Candidate(stem, m) in tried
      invariant forall s :: s in tried ==> exists m :: 0 <= m < num && s == Candidate(stem, m)
      decreases |existing - tried|
    {
      NotYetTried(stem, num, tried);
      ghost var next := tried + {dir};
      assert existing - next < existing - tried;
      forall m | 0 <= m < num + 1 ensures Candidate(stem, m) in next {
        if m < num {
          assert Candidate(stem, m) in tried;
        }
      }
      tried := next;
      num := num + 1;
      dir := Candidate(stem, num);
    }
  }
}
