/**
 The parser of `show vlan brief` in internal/verify/parse.go: a line scanner that carries the
 current VLAN from its header row to the continuation lines below it.
 */
module VlanParse {
  import opened Wrappers
  import opened Text

  type Ports = map<string, int>

  // ---------------------------------------------------------------------------
  // The header row: ^(\d+)\s+\S+\s+\S+\s+(.*)$
  // ---------------------------------------------------------------------------

  datatype RowMatch = RowMatch(vlan: string, ports: string)

  /** The parts of a row, in the order of the expression. */
  datatype RowParts = RowParts(vlan: string, blank1: string, name: string, blank2: string, status: string,
                               blank3: string, ports: string) {
    function Line(): string {
      vlan + (blank1 + (name + (blank2 + (status + (blank3 + ports)))))
    }

    predicate Complete() {
      vlan != "" && blank1 != "" && name != "" && blank2 != "" && status != "" && blank3 != ""
    }

    /** Every part but the last consists of characters of its class. */
    ghost predicate Fits() {
      && All(vlan, IsDigit) && All(blank1, IsBlank) && All(name, NotBlank)
      && All(blank2, IsBlank) && All(status, NotBlank) && All(blank3, IsBlank)
    }
  }

  function Cut(s: string, f: char -> bool): (string, string) {
    (s[..Span(s, f)], s[Span(s, f)..])
  }

  lemma CutRejoins(s: string, f: char -> bool)
    ensures var (a, b) := Cut(s, f); a + b == s && All(a, f) && (b == "" || !f(b[0]))
  {
    SpanIsLongest(s, f);
  }

  lemma CutStops(a: string, b: string, f: char -> bool)
    requires All(a, f) && (b == "" || !f(b[0]))
    ensures Cut(a + b, f) == (a, b)
  {
    SpanStops(a, b, f);
  }

  /** Each part taken as long as it goes. The scanner never has to back up: the classes on the two
      sides of a boundary exclude each other. */
  function Scan(s: string): RowParts {
    var (vlan, s1) := Cut(s, IsDigit);
    var (blank1, s2) := Cut(s1, IsBlank);
    var (name, s3) := Cut(s2, NotBlank);
    var (blank2, s4) := Cut(s3, IsBlank);
    var (status, s5) := Cut(s4, NotBlank);
    var (blank3, ports) := Cut(s5, IsBlank);
    RowParts(vlan, blank1, name, blank2, status, blank3, ports)
  }

  function MatchRow(s: string): Option<RowMatch> {
    var p := Scan(s);
    if p.Complete() then Some(RowMatch(p.vlan, p.ports)) else None
  }

  /** A line with such parts matches; the port field starts past all the blanks. */
  lemma MatchRowFits(r: RowParts)
    requires r.Complete() && r.Fits() && (r.ports == "" || !IsBlank(r.ports[0]))
    ensures MatchRow(r.Line()) == Some(RowMatch(r.vlan, r.ports))
  {
    var l6 := r.blank3 + r.ports;
    var l5 := r.status + l6;
    var l4 := r.blank2 + l5;
    var l3 := r.name + l4;
    var l2 := r.blank1 + l3;
    CutStops(r.vlan, l2, IsDigit);
    CutStops(r.blank1, l3, IsBlank);
    CutStops(r.name, l4, NotBlank);
    CutStops(r.blank2, l5, IsBlank);
    CutStops(r.status, l6, NotBlank);
    CutStops(r.blank3, r.ports, IsBlank);
  }

  /** ... and a line that matches has such parts. */
  lemma ScanFits(s: string)
    ensures Scan(s).Fits() && Scan(s).Line() == s
    ensures var ports := Scan(s).ports; ports == "" || !IsBlank(ports[0])
  {
    var (vlan, s1) := Cut(s, IsDigit);
    var (blank1, s2) := Cut(s1, IsBlank);
    var (name, s3) := Cut(s2, NotBlank);
    var (blank2, s4) := Cut(s3, IsBlank);
    var (status, s5) := Cut(s4, NotBlank);
    CutRejoins(s, IsDigit);
    CutRejoins(s1, IsBlank);
    CutRejoins(s2, NotBlank);
    CutRejoins(s3, IsBlank);
    CutRejoins(s4, NotBlank);
    CutRejoins(s5, IsBlank);
  }

  /** The expression's reading of a line. */
  ghost predicate Reads(s: string, r: RowParts) {
    r.Line() == s && r.Complete() && r.Fits() && (r.ports == "" || !IsBlank(r.ports[0]))
  }

  /** The parser's rows are those of the expression: a line matches exactly when it can be read so. */
  lemma MatchesExactly(s: string)
    ensures MatchRow(s).Some? <==> exists r: RowParts :: Reads(s, r)
  {
    if MatchRow(s).Some? {
      ScanFits(s);
      assert Reads(s, Scan(s));
    }
    forall r: RowParts | Reads(s, r) ensures MatchRow(s).Some? {
      MatchRowFits(r);
    }
  }

  lemma MatchIsDigits(s: string)
    requires MatchRow(s).Some?
    ensures All(MatchRow(s).value.vlan, IsDigit)
  {
    ScanFits(s);
  }

  // ---------------------------------------------------------------------------
  // The parser
  // ---------------------------------------------------------------------------

  function AssignPieces(m: Ports, pieces: seq<string>, vlan: int): Ports
    decreases |pieces|
  {
    if pieces == [] then m
    else
      var p := TrimSpace(pieces[0]);
      AssignPieces(if p == "" then m else m[p := vlan], pieces[1..], vlan)
  }

  function AssignPorts(m: Ports, field: string, vlan: int): Ports {
    AssignPieces(m, Split(field, ','), vlan)
  }

  /** The map so far and the VLAN the next continuation line belongs to; -1 before the first row. */
  datatype State = State(ports: Ports, current: int)

  function ParseLine(s: State, line: string): State {
    var trimmed := CutRight(line, IsLineTail);
    if trimmed == "" then s
    else
      match MatchRow(trimmed)
      case Some(m) =>
        MatchIsDigits(trimmed);
        (match Atoi(m.vlan)
         case None => s
         case Some(v) => State(AssignPorts(s.ports, m.ports, v), v))
      case None =>
        if s.current >= 0 && HasEt(trimmed)
        then s.(ports := AssignPorts(s.ports, TrimSpace(trimmed), s.current))
        else s
  }

  function ParseLines(s: State, lines: seq<string>): State {
    if lines == [] then s
    else ParseLine(ParseLines(s, lines[..|lines| - 1]), lines[|lines| - 1])
  }

  function Parse(out: string): Ports {
    ParseLines(State(map[], -1), Split(out, '\n')).ports
  }

  method AssignAllPorts(m: Ports, field: string, vlan: int) returns (r: Ports)
    ensures r == AssignPorts(m, field, vlan)
  {
    var pieces := Split(field, ',');
    r := m;
    for i := 0 to |pieces|
      invariant AssignPieces(m, pieces, vlan) == AssignPieces(r, pieces[i..], vlan)
    {
      var p := TrimSpace(pieces[i]);
      assert pieces[i..][1..] == pieces[i + 1..];
      if p != "" {
        r := r[p := vlan];
      }
    }
  }

  method ParseVlanBrief(out: string) returns (result: Ports)
    ensures result == Parse(out)
  {
    hide CutRight, MatchRow, Atoi, AssignPorts, TrimSpace, HasEt, Split;
    result := map[];
    var currentVLAN: int := -1;
    var lines := Split(out, '\n');
    for i := 0 to |lines|
      invariant State(result, currentVLAN) == ParseLines(State(map[], -1), lines[..i])
    {
      assert lines[..i + 1][..i] == lines[..i];
      var trimmed := CutRight(lines[i], IsLineTail);
      if trimmed == "" {
        continue;
      }
      var m := MatchRow(trimmed);
      if m.Some? {
        MatchIsDigits(trimmed);
        var vlan := Atoi(m.value.vlan);
        if vlan.None? {
          continue;
        }
        currentVLAN := vlan.value;
        result := AssignAllPorts(result, m.value.ports, currentVLAN);
        continue;
      }
      if currentVLAN >= 0 && HasEt(trimmed) {
        result := AssignAllPorts(result, TrimSpace(trimmed), currentVLAN);
      }
    }
    assert lines[..|lines|] == lines;
  }

  // ---------------------------------------------------------------------------
  // Printed tables
  // ---------------------------------------------------------------------------

  /** A VLAN with its ports, as they are wrapped onto lines: none at all, or the first group on the
      header row and each further group on a continuation line of its own. */
  datatype VlanRow = VlanRow(vlan: nat, name: string, status: string, groups: seq<seq<string>>)

  /** How a line of ports ends: with a comma, as before a wrap, or without; then spaces and carriage returns. */
  datatype LineEnd = LineEnd(comma: bool, tail: string)

  /** A continuation line starts after `indent` spaces. */
  datatype WrapLayout = WrapLayout(indent: nat, end: LineEnd)

  /** Every row has its own column gaps, and each of its lines its own end. */
  datatype RowLayout = RowLayout(gap1: nat, gap2: nat, gap3: nat, end: LineEnd, wraps: seq<WrapLayout>)

  ghost predicate EndOk(e: LineEnd) {
    All(e.tail, IsLineTail)
  }

  /** The columns are apart, and continuation lines are indented. A row without ports may end at its status. */
  ghost predicate LayoutOk(r: VlanRow, l: RowLayout) {
    && l.gap1 > 0 && l.gap2 > 0 && (r.groups != [] ==> l.gap3 > 0)
    && EndOk(l.end)
    && |l.wraps| == (if r.groups == [] then 0 else |r.groups| - 1)
    && forall i :: 0 <= i < |l.wraps| ==> l.wraps[i].indent > 0 && EndOk(l.wraps[i].end)
  }

  ghost predicate PortOk(p: string) {
    Tight(p) && ',' !in p && forall i :: 0 <= i < |p| ==> !IsBlank(p[i])
  }

  ghost predicate GroupOk(g: seq<string>) {
    g != [] && forall i :: 0 <= i < |g| ==> PortOk(g[i])
  }

  ghost predicate NameOk(r: VlanRow) {
    r.name != "" && All(r.name, NotBlank) && r.status != "" && All(r.status, NotBlank)
  }

  /** Some port of the line has "Et" in it. */
  ghost predicate SomeEt(g: seq<string>) {
    exists j :: 0 <= j < |g| && HasEt(g[j])
  }

  ghost predicate EtFree(r: VlanRow) {
    !HasEt(r.name) && !HasEt(r.status)
  }

  /** Names and statuses are words; those of a row without ports are free of "Et", and every
      continuation line holds a port with it. */
  ghost predicate RowOk(r: VlanRow) {
    && r.vlan <= MAX_INT
    && NameOk(r) && (r.groups == [] ==> EtFree(r))
    && (forall i :: 0 <= i < |r.groups| ==> GroupOk(r.groups[i]))
    && (forall i :: 1 <= i < |r.groups| ==> SomeEt(r.groups[i]))
  }

  function PortText(g: seq<string>): string
    requires g != []
  {
    if |g| == 1 then g[0] else g[0] + "," + (" " + PortText(g[1..]))
  }

  /** The ports of one line, with the comma before a wrap. */
  function FieldText(g: seq<string>, comma: bool): string
    requires g != []
  {
    PortText(g) + (if comma then "," else "")
  }

  function HeaderParts(r: VlanRow, l: RowLayout): RowParts {
    RowParts(Digits(r.vlan), Spaces(l.gap1), r.name, Spaces(l.gap2), r.status, Spaces(l.gap3),
             if r.groups == [] || r.groups[0] == [] then "" else FieldText(r.groups[0], l.end.comma))
  }

  function HeaderLine(r: VlanRow, l: RowLayout): string {
    HeaderParts(r, l).Line() + l.end.tail
  }

  function ContinuationLine(g: seq<string>, w: WrapLayout): string
    requires g != []
  {
    Spaces(w.indent) + FieldText(g, w.end.comma) + w.end.tail
  }

  predicate Printable(r: VlanRow, l: RowLayout) {
    && |l.wraps| == (if r.groups == [] then 0 else |r.groups| - 1)
    && forall i :: 0 <= i < |r.groups| ==> r.groups[i] != []
  }

  function RowLines(r: VlanRow, l: RowLayout): (lines: seq<string>)
    requires Printable(r, l)
    ensures |lines| == if r.groups == [] then 1 else |r.groups|
  {
    [HeaderLine(r, l)]
    + seq(|l.wraps|, i requires 0 <= i < |l.wraps| => ContinuationLine(r.groups[i + 1], l.wraps[i]))
  }

  ghost predicate TableOk(rows: seq<VlanRow>, ls: seq<RowLayout>) {
    |ls| == |rows| && forall i :: 0 <= i < |rows| ==> RowOk(rows[i]) && LayoutOk(rows[i], ls[i])
  }

  predicate AllPrintable(rows: seq<VlanRow>, ls: seq<RowLayout>) {
    |ls| == |rows| && forall i :: 0 <= i < |rows| ==> Printable(rows[i], ls[i])
  }

  function TableLines(rows: seq<VlanRow>, ls: seq<RowLayout>): seq<string>
    requires AllPrintable(rows, ls)
  {
    if rows == [] then []
    else
      var n := |rows| - 1;
      TableLines(rows[..n], ls[..n]) + RowLines(rows[n], ls[n])
  }

  lemma OkMeansPrintable(rows: seq<VlanRow>, ls: seq<RowLayout>)
    requires TableOk(rows, ls)
    ensures AllPrintable(rows, ls)
  {
    forall i | 0 <= i < |rows| ensures Printable(rows[i], ls[i]) {
      assert RowOk(rows[i]) && LayoutOk(rows[i], ls[i]);
      forall j | 0 <= j < |rows[i].groups| ensures rows[i].groups[j] != [] {
        assert GroupOk(rows[i].groups[j]);
      }
    }
  }

  // ---------------------------------------------------------------------------
  // What a table means
  // ---------------------------------------------------------------------------

  function AssignAll(m: Ports, g: seq<string>, vlan: int): Ports
    decreases |g|
  {
    if g == [] then m else AssignAll(m[g[0] := vlan], g[1..], vlan)
  }

  function Flat(groups: seq<seq<string>>): seq<string> {
    if groups == [] then [] else Flat(groups[..|groups| - 1]) + groups[|groups| - 1]
  }

  /** Row after row, every port goes to the row's VLAN. */
  function Meaning(rows: seq<VlanRow>): Ports {
    if rows == [] then map[]
    else
      var last := rows[|rows| - 1];
      AssignAll(Meaning(rows[..|rows| - 1]), Flat(last.groups), last.vlan)
  }

  lemma {:induction false} AssignAllConcat(m: Ports, g: seq<string>, h: seq<string>, vlan: int)
    ensures AssignAll(m, g + h, vlan) == AssignAll(AssignAll(m, g, vlan), h, vlan)
    decreases |g|
  {
    if g == [] {
      assert g + h == h;
    } else {
      assert (g + h)[1..] == g[1..] + h;
      AssignAllConcat(m[g[0] := vlan], g[1..], h, vlan);
    }
  }

  // ---------------------------------------------------------------------------
  // One line at a time
  // ---------------------------------------------------------------------------

  lemma TailGroupOk(g: seq<string>)
    requires GroupOk(g) && |g| > 1
    ensures GroupOk(g[1..])
  {
    forall i | 0 <= i < |g[1..]| ensures PortOk(g[1..][i]) {
      assert g[1..][i] == g[i + 1];
    }
  }

  lemma {:induction false} PortTextTight(g: seq<string>)
    requires GroupOk(g)
    ensures Tight(PortText(g)) && !IsBlank(PortText(g)[0])
    ensures !IsLineTail(PortText(g)[|PortText(g)| - 1])
    decreases |g|
  {
    assert PortOk(g[0]);
    if |g| > 1 {
      TailGroupOk(g);
      PortTextTight(g[1..]);
    }
  }

  lemma FieldTextTight(g: seq<string>, comma: bool)
    requires GroupOk(g)
    ensures var t := FieldText(g, comma); Tight(t) && !IsBlank(t[0]) && !IsLineTail(t[|t| - 1])
  {
    PortTextTight(g);
  }

  /** A single port, with or without the comma after it. */
  lemma LastPortAssigns(m: Ports, pad: string, p: string, comma: bool, vlan: int)
    requires PortOk(p) && All(pad, IsSpace) && ',' !in pad
    ensures AssignPorts(m, pad + (p + (if comma then "," else "")), vlan) == m[p := vlan]
  {
    hide TrimSpace, Split;
    TrimPadded(pad, p);
    assert ',' !in pad + p;
    if comma {
      assert pad + (p + ",") == (pad + p) + [','] + "";
      SplitFirst(pad + p, "", ',');
      SplitOne("", ',');
      TrimEmpty();
      assert [pad + p] + [""] == [pad + p, ""];
      assert [pad + p, ""][1..] == [""] && [""][1..] == [];
      assert AssignPieces(m[p := vlan], [""], vlan) == AssignPieces(m[p := vlan], [], vlan);
    } else {
      assert pad + (p + "") == pad + p;
      SplitOne(pad + p, ',');
      assert [pad + p][1..] == [];
      assert AssignPieces(m, [pad + p], vlan) == AssignPieces(m[p := vlan], [], vlan);
    }
  }

  lemma TrimEmpty()
    ensures TrimSpace("") == ""
  {
  }

  /** Splitting the printed ports at the commas and trimming the pieces gives the ports back; what
      follows a comma at the end of the line is dropped. */
  lemma {:induction false} FieldTextAssigns(m: Ports, pad: string, g: seq<string>, comma: bool, vlan: int)
    requires GroupOk(g) && All(pad, IsSpace) && ',' !in pad
    ensures AssignPorts(m, pad + FieldText(g, comma), vlan) == AssignAll(m, g, vlan)
    decreases |g|
  {
    hide TrimSpace, Split;
    var p := g[0];
    assert PortOk(p);
    if |g| == 1 {
      LastPortAssigns(m, pad, p, comma, vlan);
      assert g[1..] == [];
    } else {
      TrimPadded(pad, p);
      var rest := " " + FieldText(g[1..], comma);
      TailGroupOk(g);
      assert ',' !in pad + p;
      assert pad + FieldText(g, comma) == (pad + p) + [','] + rest;
      SplitFirst(pad + p, rest, ',');
      assert ([pad + p] + Split(rest, ','))[1..] == Split(rest, ',');
      FieldTextAssigns(m[p := vlan], " ", g[1..], comma, vlan);
    }
  }

  lemma {:induction false} PortTextHasEt(g: seq<string>, j: nat)
    requires j < |g| && HasEt(g[j])
    ensures HasEt(PortText(g))
    decreases |g|
  {
    hide HasEt;
    if |g| > 1 {
      var rest := PortText(g[1..]);
      if j == 0 {
        HasEtIn("", g[0], "," + (" " + rest));
        assert "" + g[0] + ("," + (" " + rest)) == PortText(g);
      } else {
        PortTextHasEt(g[1..], j - 1);
        HasEtIn(g[0] + "," + " ", rest, "");
        assert g[0] + "," + " " + rest + "" == PortText(g);
      }
    }
  }

  lemma DigitsNumber(n: nat)
    ensures All(Digits(n), IsDigit)
    ensures n <= MAX_INT ==> Atoi(Digits(n)) == Some(n)
  {
    NumberOfDigits(n);
  }

  lemma HeaderPartsFit(r: VlanRow, l: RowLayout)
    requires NameOk(r) && LayoutOk(r, l)
    ensures HeaderParts(r, l).Fits() && (r.groups != [] ==> HeaderParts(r, l).Complete())
  {
    DigitsNumber(r.vlan);
  }

  lemma HeaderMatches(r: VlanRow, l: RowLayout)
    requires RowOk(r) && LayoutOk(r, l) && r.groups != []
    ensures var line := CutRight(HeaderLine(r, l), IsLineTail);
            line != "" && MatchRow(line) == Some(RowMatch(Digits(r.vlan), FieldText(r.groups[0], l.end.comma)))
  {
    var parts := HeaderParts(r, l);
    assert GroupOk(r.groups[0]);
    HeaderPartsFit(r, l);
    FieldTextTight(r.groups[0], l.end.comma);
    LineEndsWith(parts);
    hide MatchRow, CutRight;
    CutRightTail(parts.Line(), l.end.tail, IsLineTail);
    MatchRowFits(parts);
  }

  /** A header row that lists ports assigns them and makes its VLAN the current one. */
  lemma HeaderAssigns(s: State, r: VlanRow, l: RowLayout)
    requires RowOk(r) && LayoutOk(r, l) && r.groups != []
    ensures ParseLine(s, HeaderLine(r, l)) == State(AssignAll(s.ports, r.groups[0], r.vlan), r.vlan)
  {
    var g := r.groups[0];
    assert GroupOk(g);
    HeaderMatches(r, l);
    DigitsNumber(r.vlan);
    FieldTextAssigns(s.ports, "", g, l.end.comma, r.vlan);
    assert "" + FieldText(g, l.end.comma) == FieldText(g, l.end.comma);
    hide MatchRow, CutRight, HeaderLine, FieldText, AssignPorts, AssignAll, Atoi;
  }

  lemma LineEndsWith(r: RowParts)
    ensures r.ports != "" ==> r.Line() != "" && r.Line()[|r.Line()| - 1] == r.ports[|r.ports| - 1]
  {
  }

  /** A row without ports, up to its status column. */
  function BareLine(r: VlanRow, l: RowLayout): string {
    Digits(r.vlan) + (Spaces(l.gap1) + (r.name + (Spaces(l.gap2) + r.status)))
  }

  /** A row without ports is not recognised as a row. It changes nothing at all, unless a VLAN is current and
      "Et" occurs in the row's name or status: then the whole row is taken for a port list of that VLAN. */
  lemma PortlessExactly(s: State, r: VlanRow, l: RowLayout)
    requires NameOk(r) && LayoutOk(r, l) && r.groups == []
    ensures ParseLine(s, HeaderLine(r, l)) ==
            if s.current >= 0 && !EtFree(r)
            then s.(ports := AssignPorts(s.ports, TrimSpace(BareLine(r, l)), s.current))
            else s
  {
    BareCut(r, l);
    BareFacts(r, l);
    hide BareLine, HeaderLine, CutRight, MatchRow, HasEt, AssignPorts, TrimSpace, NameOk, LayoutOk;
    assert CutRight(HeaderLine(r, l), IsLineTail) == BareLine(r, l);
  }

  lemma BareFacts(r: VlanRow, l: RowLayout)
    requires NameOk(r) && LayoutOk(r, l)
    ensures MatchRow(BareLine(r, l)).None?
    ensures HasEt(BareLine(r, l)) <==> !EtFree(r)
  {
    hide MatchRow, HasEt;
    DigitsNumber(r.vlan);
    BareRowDoesNotMatch(Digits(r.vlan), Spaces(l.gap1), r.name, Spaces(l.gap2), r.status);
    BareRowHasEt(Digits(r.vlan), Spaces(l.gap1), r.name, Spaces(l.gap2), r.status);
  }

  lemma BareCut(r: VlanRow, l: RowLayout)
    requires NameOk(r) && LayoutOk(r, l) && r.groups == []
    ensures CutRight(HeaderLine(r, l), IsLineTail) == BareLine(r, l) && BareLine(r, l) != ""
  {
    var tail := Spaces(l.gap3) + l.end.tail;
    assert HeaderLine(r, l) == BareLine(r, l) + tail;
    assert BareLine(r, l)[|BareLine(r, l)| - 1] == r.status[|r.status| - 1];
    CutRightTail(BareLine(r, l), tail, IsLineTail);
  }

  lemma PortlessChangesNothing(s: State, r: VlanRow, l: RowLayout)
    requires RowOk(r) && LayoutOk(r, l) && r.groups == []
    ensures ParseLine(s, HeaderLine(r, l)) == s
  {
    hide ParseLine, HeaderLine;
    PortlessExactly(s, r, l);
  }

  lemma BareRowDoesNotMatch(vlan: string, gap1: string, name: string, gap2: string, status: string)
    requires vlan != "" && All(vlan, IsDigit) && gap1 != "" && All(gap1, IsBlank) && gap2 != "" && All(gap2, IsBlank)
    requires name != "" && All(name, NotBlank) && status != "" && All(status, NotBlank)
    ensures MatchRow(vlan + (gap1 + (name + (gap2 + status)))).None?
  {
    var l5 := gap2 + status;
    var l4 := name + l5;
    var l3 := gap1 + l4;
    CutStops(vlan, l3, IsDigit);
    CutStops(gap1, l4, IsBlank);
    CutStops(name, l5, NotBlank);
    CutStops(gap2, status, IsBlank);
    assert status + "" == status;
    CutStops(status, "", NotBlank);
    hide Cut;
    assert Cut("", IsBlank) == ("", "") by {
      CutStops("", "", IsBlank);
      assert "" + "" == "";
    }
  }

  lemma BareRowHasEt(vlan: string, gap1: string, name: string, gap2: string, status: string)
    requires All(vlan, IsDigit) && gap1 != "" && gap2 != ""
    requires (forall i :: 0 <= i < |gap1| ==> gap1[i] == ' ') && forall i :: 0 <= i < |gap2| ==> gap2[i] == ' '
    ensures HasEt(vlan + (gap1 + (name + (gap2 + status)))) <==> HasEt(name) || HasEt(status)
  {
    var line := vlan + (gap1 + (name + (gap2 + status)));
    if HasEt(name) {
      HasEtIn(vlan + gap1, name, gap2 + status);
      assert vlan + gap1 + name + (gap2 + status) == line;
    } else if HasEt(status) {
      HasEtIn(vlan + gap1 + name + gap2, status, "");
      assert vlan + gap1 + name + gap2 + status + "" == line;
    } else {
      assert !HasEt(gap1) && !HasEt(gap2) && !HasEt(vlan);
      hide HasEt;
      NoEtAcross(gap2, status);
      NoEtAcross(name, gap2 + status);
      NoEtAcross(gap1, name + (gap2 + status));
      NoEtAcross(vlan, gap1 + (name + (gap2 + status)));
    }
  }

  lemma IndentedIsNoRow(line: string)
    requires line != "" && line[0] == ' '
    ensures MatchRow(line).None?
  {
    assert Span(line, IsDigit) == 0;
  }

  lemma ContinuationCut(g: seq<string>, w: WrapLayout)
    requires GroupOk(g) && w.indent > 0 && EndOk(w.end)
    ensures var line := CutRight(ContinuationLine(g, w), IsLineTail);
            && line == Spaces(w.indent) + FieldText(g, w.end.comma) && line != "" && line[0] == ' '
            && TrimSpace(line) == FieldText(g, w.end.comma)
  {
    var pad, text := Spaces(w.indent), FieldText(g, w.end.comma);
    FieldTextTight(g, w.end.comma);
    hide TrimSpace, CutRight, FieldText;
    CutRightTail(pad + text, w.end.tail, IsLineTail);
    TrimPadded(pad, text);
  }

  lemma {:induction false} PortTextNoEt(g: seq<string>)
    requires g != [] && !SomeEt(g)
    ensures !HasEt(PortText(g))
    decreases |g|
  {
    assert !HasEt(g[0]);
    if |g| > 1 {
      forall j | 0 <= j < |g[1..]| ensures !HasEt(g[1..][j]) {
        assert g[1..][j] == g[j + 1];
      }
      PortTextNoEt(g[1..]);
      hide HasEt;
      NoEtBetween(g[0], PortText(g[1..]));
    }
  }

  lemma NoEtBetween(first: string, rest: string)
    requires !HasEt(first) && !HasEt(rest)
    ensures !HasEt(first + "," + (" " + rest))
  {
    assert !HasEt(",") && !HasEt(" ");
    hide HasEt;
    NoEtAcross(first, ",");
    NoEtAcross(" ", rest);
    NoEtAcross(first + ",", " " + rest);
  }

  /** The line holds "Et" exactly if one of its ports does. */
  lemma FieldHasEt(g: seq<string>, pad: string, comma: bool)
    requires g != [] && forall i :: 0 <= i < |pad| ==> pad[i] == ' '
    ensures HasEt(pad + FieldText(g, comma)) <==> SomeEt(g)
  {
    var after := if comma then "," else "";
    assert pad + PortText(g) + after == pad + FieldText(g, comma);
    assert !HasEt(after) && !HasEt(pad);
    hide HasEt;
    if SomeEt(g) {
      var j :| 0 <= j < |g| && HasEt(g[j]);
      PortTextHasEt(g, j);
      HasEtIn(pad, PortText(g), after);
    } else {
      PortTextNoEt(g);
      NoEtAcross(pad, PortText(g));
      NoEtAcross(pad + PortText(g), after);
    }
  }

  /** A continuation line gives its ports to the current VLAN if there is one and some port holds "Et";
      otherwise it is dropped, ports and all. */
  lemma ContinuationExactly(s: State, g: seq<string>, w: WrapLayout)
    requires GroupOk(g) && w.indent > 0 && EndOk(w.end)
    ensures ParseLine(s, ContinuationLine(g, w)) ==
            if s.current >= 0 && SomeEt(g) then s.(ports := AssignAll(s.ports, g, s.current)) else s
  {
    hide TrimSpace, CutRight, FieldText, HasEt, AssignPorts, ContinuationLine, MatchRow, SomeEt;
    ContinuationCut(g, w);
    FieldHasEt(g, Spaces(w.indent), w.end.comma);
    IndentedIsNoRow(CutRight(ContinuationLine(g, w), IsLineTail));
    FieldTextAssigns(s.ports, "", g, w.end.comma, s.current);
    assert "" + FieldText(g, w.end.comma) == FieldText(g, w.end.comma);
  }

  // ---------------------------------------------------------------------------
  // Whole tables
  // ---------------------------------------------------------------------------

  lemma {:induction false} ParseLinesConcat(s: State, a: seq<string>, b: seq<string>)
    ensures ParseLines(s, a + b) == ParseLines(ParseLines(s, a), b)
    decreases |b|
  {
    if b == [] {
      assert a + b == a;
    } else {
      assert (a + b)[..|a + b| - 1] == a + b[..|b| - 1];
      ParseLinesConcat(s, a, b[..|b| - 1]);
    }
  }

  lemma FlatOne(g: seq<string>)
    ensures Flat([g]) == g
  {
    assert [g][..0] == [];
    assert Flat([]) + g == g;
  }

  lemma RowIsPrintable(r: VlanRow, l: RowLayout)
    requires RowOk(r) && LayoutOk(r, l)
    ensures Printable(r, l)
  {
    OkMeansPrintable([r], [l]);
  }

  lemma FirstGroupAssigns(s: State, r: VlanRow, l: RowLayout)
    requires RowOk(r) && LayoutOk(r, l) && r.groups != [] && Printable(r, l)
    ensures ParseLines(s, RowLines(r, l)[..1]) == State(AssignAll(s.ports, Flat(r.groups[..1]), r.vlan), r.vlan)
  {
    hide ParseLine, HeaderLine, ContinuationLine, AssignAll;
    var lines := RowLines(r, l)[..1];
    HeaderAssigns(s, r, l);
    FlatOne(r.groups[0]);
    assert lines == [HeaderLine(r, l)] && lines[..0] == [];
    assert r.groups[..1] == [r.groups[0]];
  }

  lemma {:induction false} RowPrefixAssigns(s: State, r: VlanRow, l: RowLayout, n: nat)
    requires RowOk(r) && LayoutOk(r, l) && Printable(r, l) && 1 <= n <= |r.groups|
    ensures ParseLines(s, RowLines(r, l)[..n]) == State(AssignAll(s.ports, Flat(r.groups[..n]), r.vlan), r.vlan)
    decreases n
  {
    hide RowLines, ParseLine, AssignAll, Flat, ContinuationLine, HeaderLine, ParseLines;
    if n == 1 {
      FirstGroupAssigns(s, r, l);
    } else {
      RowPrefixAssigns(s, r, l, n - 1);
      FlatStep(r.groups, n);
      ParseLinesStep(s, RowLines(r, l), n);
      RowLineAt(r, l, n - 1);
      NextGroupAssigns(s, r, l, n - 1, ParseLines(s, RowLines(r, l)[..n - 1]));
    }
  }

  lemma FlatStep(groups: seq<seq<string>>, n: nat)
    requires 1 <= n <= |groups|
    ensures Flat(groups[..n]) == Flat(groups[..n - 1]) + groups[n - 1]
  {
    assert groups[..n][..n - 1] == groups[..n - 1];
  }

  lemma ParseLinesStep(s: State, lines: seq<string>, n: nat)
    requires 1 <= n <= |lines|
    ensures ParseLines(s, lines[..n]) == ParseLine(ParseLines(s, lines[..n - 1]), lines[n - 1])
  {
    assert lines[..n][..n - 1] == lines[..n - 1];
  }

  lemma RowLineAt(r: VlanRow, l: RowLayout, n: nat)
    requires Printable(r, l) && 1 <= n < |r.groups|
    ensures RowLines(r, l)[n] == ContinuationLine(r.groups[n], l.wraps[n - 1])
  {
  }

  lemma NextGroupAssigns(s: State, r: VlanRow, l: RowLayout, n: nat, before: State)
    requires RowOk(r) && LayoutOk(r, l) && 1 <= n < |r.groups|
    requires before == State(AssignAll(s.ports, Flat(r.groups[..n]), r.vlan), r.vlan)
    ensures r.groups[n] != []
    ensures ParseLine(before, ContinuationLine(r.groups[n], l.wraps[n - 1]))
            == State(AssignAll(s.ports, Flat(r.groups[..n]) + r.groups[n], r.vlan), r.vlan)
  {
    hide ParseLine, ContinuationLine, AssignAll, Flat, SomeEt;
    var g := r.groups[n];
    assert GroupOk(g);
    ContinuationExactly(before, g, l.wraps[n - 1]);
    AssignAllConcat(s.ports, Flat(r.groups[..n]), g, r.vlan);
  }

  lemma RowAssigns(s: State, r: VlanRow, l: RowLayout)
    requires RowOk(r) && LayoutOk(r, l) && Printable(r, l)
    ensures ParseLines(s, RowLines(r, l)).ports == AssignAll(s.ports, Flat(r.groups), r.vlan)
  {
    hide ParseLine, HeaderLine, ContinuationLine;
    var lines := RowLines(r, l);
    if r.groups == [] {
      PortlessChangesNothing(s, r, l);
      assert lines == [HeaderLine(r, l)] && lines[..0] == [];
    } else {
      RowPrefixAssigns(s, r, l, |r.groups|);
      assert lines[..|r.groups|] == lines;
      assert r.groups[..|r.groups|] == r.groups;
    }
  }

  lemma {:induction false} TableAssigns(rows: seq<VlanRow>, ls: seq<RowLayout>, s: State)
    requires TableOk(rows, ls) && AllPrintable(rows, ls) && s.ports == map[]
    ensures ParseLines(s, TableLines(rows, ls)).ports == Meaning(rows)
    decreases |rows|
  {
    hide RowOk, LayoutOk, RowLines, AssignAll, Flat;
    if rows == [] {
    } else {
      var n := |rows| - 1;
      assert TableOk(rows[..n], ls[..n]);
      TableAssigns(rows[..n], ls[..n], s);
      ParseLinesConcat(s, TableLines(rows[..n], ls[..n]), RowLines(rows[n], ls[n]));
      RowAssigns(ParseLines(s, TableLines(rows[..n], ls[..n])), rows[n], ls[n]);
    }
  }

  /** Lines around the table that are no VLAN row: above it column titles and rulers, below it whatever
      does not look like a continuation line. */
  ghost predicate IsNoRow(line: string) {
    '\n' !in line && MatchRow(CutRight(line, IsLineTail)).None?
  }

  ghost predicate AroundOk(titles: seq<string>, footers: seq<string>) {
    && (forall i :: 0 <= i < |titles| ==> IsNoRow(titles[i]))
    && forall i :: 0 <= i < |footers| ==> IsNoRow(footers[i]) && !HasEt(CutRight(footers[i], IsLineTail))
  }

  lemma {:induction false} TitlesChangeNothing(titles: seq<string>)
    requires forall i :: 0 <= i < |titles| ==> IsNoRow(titles[i])
    ensures ParseLines(State(map[], -1), titles) == State(map[], -1)
    decreases |titles|
  {
    if titles == [] {
    } else {
      assert IsNoRow(titles[|titles| - 1]);
      TitlesChangeNothing(titles[..|titles| - 1]);
    }
  }

  lemma {:induction false} FootersChangeNothing(s: State, footers: seq<string>)
    requires forall i :: 0 <= i < |footers| ==> IsNoRow(footers[i]) && !HasEt(CutRight(footers[i], IsLineTail))
    ensures ParseLines(s, footers) == s
    decreases |footers|
  {
    hide HasEt, CutRight, MatchRow;
    if footers == [] {
    } else {
      assert IsNoRow(footers[|footers| - 1]);
      FootersChangeNothing(s, footers[..|footers| - 1]);
    }
  }

  /** The printed text; without any line it is empty. */
  function Print(titles: seq<string>, rows: seq<VlanRow>, ls: seq<RowLayout>, footers: seq<string>): string
    requires AllPrintable(rows, ls)
  {
    var lines := titles + TableLines(rows, ls) + footers;
    if lines == [] then "" else Join(lines, '\n')
  }

  /** Splitting the empty text gives one empty line, which changes nothing. */
  lemma ParsePrinted(lines: seq<string>)
    requires forall i :: 0 <= i < |lines| ==> '\n' !in lines[i]
    ensures Parse(if lines == [] then "" else Join(lines, '\n')) == ParseLines(State(map[], -1), lines).ports
  {
    if lines == [] {
      assert Split("", '\n') == [""] && [""][..0] == [];
    } else {
      SplitJoin(lines, '\n');
    }
  }

  /** Main result: for any table, any wrapping, any column widths, indents and line ends, parsing the printed
      table gives what the table means. No continuation line bleeds into another VLAN. */
  lemma ParsePrint(titles: seq<string>, rows: seq<VlanRow>, ls: seq<RowLayout>, footers: seq<string>)
    requires AroundOk(titles, footers) && TableOk(rows, ls)
    ensures AllPrintable(rows, ls)
    ensures Parse(Print(titles, rows, ls, footers)) == Meaning(rows)
  {
    OkMeansPrintable(rows, ls);
    hide AllPrintable, TableOk, TableLines, Meaning, MatchRow, CutRight, HasEt, ParseLines, Split, Join;
    var table := TableLines(rows, ls);
    var lines := titles + table + footers;
    var start := State(map[], -1);
    TableLinesAreLines(rows, ls);
    LinesTogether(titles, table, footers);
    ParsePrinted(lines);
    ParseLinesConcat(start, titles + table, footers);
    ParseLinesConcat(start, titles, table);
    TitlesChangeNothing(titles);
    TableAssigns(rows, ls, start);
    FootersChangeNothing(ParseLines(start, table), footers);
  }

  lemma LinesTogether(titles: seq<string>, table: seq<string>, footers: seq<string>)
    requires AroundOk(titles, footers) && forall i :: 0 <= i < |table| ==> '\n' !in table[i]
    ensures forall i :: 0 <= i < |titles + table + footers| ==> '\n' !in (titles + table + footers)[i]
  {
    hide MatchRow, CutRight, HasEt;
    var lines := titles + table + footers;
    forall i | 0 <= i < |lines| ensures '\n' !in lines[i] {
      if i < |titles| {
        assert IsNoRow(titles[i]);
      } else if i < |titles| + |table| {
        assert lines[i] == table[i - |titles|];
      } else {
        assert IsNoRow(footers[i - |titles| - |table|]);
      }
    }
  }

  lemma {:induction false} PortTextIsLine(g: seq<string>)
    requires GroupOk(g)
    ensures '\n' !in PortText(g)
    decreases |g|
  {
    assert PortOk(g[0]);
    if |g| > 1 {
      TailGroupOk(g);
      PortTextIsLine(g[1..]);
    }
  }

  lemma HeaderIsLine(r: VlanRow, l: RowLayout)
    requires NameOk(r) && EndOk(l.end) && (r.groups == [] || GroupOk(r.groups[0]))
    ensures '\n' !in HeaderLine(r, l)
  {
    DigitsNumber(r.vlan);
    if r.groups != [] {
      PortTextIsLine(r.groups[0]);
    }
    hide Digits, PortText, GroupOk;
    assert '\n' !in r.name && '\n' !in r.status && '\n' !in Digits(r.vlan) && '\n' !in l.end.tail;
  }

  lemma ContinuationIsLine(g: seq<string>, w: WrapLayout)
    requires GroupOk(g) && EndOk(w.end)
    ensures '\n' !in ContinuationLine(g, w)
  {
    PortTextIsLine(g);
  }

  lemma RowLineIsLine(r: VlanRow, l: RowLayout, i: nat)
    requires RowOk(r) && LayoutOk(r, l) && Printable(r, l) && i < |RowLines(r, l)|
    ensures '\n' !in RowLines(r, l)[i]
  {
    hide HeaderLine, ContinuationLine, GroupOk, NameOk, HasEt, EndOk;
    if i == 0 {
      assert r.groups == [] || GroupOk(r.groups[0]);
      HeaderIsLine(r, l);
    } else {
      assert GroupOk(r.groups[i]) && EndOk(l.wraps[i - 1].end);
      ContinuationIsLine(r.groups[i], l.wraps[i - 1]);
    }
  }

  lemma RowLinesAreLines(r: VlanRow, l: RowLayout)
    requires RowOk(r) && LayoutOk(r, l) && Printable(r, l)
    ensures forall i :: 0 <= i < |RowLines(r, l)| ==> '\n' !in RowLines(r, l)[i]
  {
    hide RowOk, LayoutOk, RowLines;
    forall i | 0 <= i < |RowLines(r, l)| ensures '\n' !in RowLines(r, l)[i] {
      RowLineIsLine(r, l, i);
    }
  }

  lemma {:induction false} TableLinesAreLines(rows: seq<VlanRow>, ls: seq<RowLayout>)
    requires TableOk(rows, ls) && AllPrintable(rows, ls)
    ensures forall i :: 0 <= i < |TableLines(rows, ls)| ==> '\n' !in TableLines(rows, ls)[i]
    decreases |rows|
  {
    hide RowOk, LayoutOk, RowLines;
    if rows == [] {
    } else {
      var n := |rows| - 1;
      assert TableOk(rows[..n], ls[..n]);
      TableLinesAreLines(rows[..n], ls[..n]);
      RowLinesAreLines(rows[n], ls[n]);
    }
  }

  // ---------------------------------------------------------------------------
  // Tables in which every port belongs to one VLAN
  // ---------------------------------------------------------------------------

  ghost predicate InRow(r: VlanRow, p: string) {
    p in Flat(r.groups)
  }

  ghost predicate OneVlanPerPort(rows: seq<VlanRow>) {
    forall i, j, p :: 0 <= i < |rows| && 0 <= j < |rows| && InRow(rows[i], p) && InRow(rows[j], p) ==>
      rows[i].vlan == rows[j].vlan
  }

  lemma {:induction false} AssignAllAt(m: Ports, g: seq<string>, vlan: int, p: string)
    ensures p in AssignAll(m, g, vlan) <==> p in m || p in g
    ensures p in AssignAll(m, g, vlan) ==> AssignAll(m, g, vlan)[p] == if p in g then vlan else m[p]
    decreases |g|
  {
    if g == [] {
    } else {
      AssignAllAt(m[g[0] := vlan], g[1..], vlan, p);
      assert p in g <==> p == g[0] || p in g[1..];
    }
  }

  /** The table is then exactly the map from its ports to their VLANs. */
  lemma {:induction false} MeaningIsTheTable(rows: seq<VlanRow>, p: string)
    requires OneVlanPerPort(rows)
    ensures p in Meaning(rows) <==> exists i :: 0 <= i < |rows| && InRow(rows[i], p)
    ensures forall i :: 0 <= i < |rows| && InRow(rows[i], p) ==> p in Meaning(rows) && Meaning(rows)[p] == rows[i].vlan
    decreases |rows|
  {
    if rows == [] {
    } else {
      var n := |rows| - 1;
      var before := rows[..n];
      assert OneVlanPerPort(before);
      MeaningIsTheTable(before, p);
      AssignAllAt(Meaning(before), Flat(rows[n].groups), rows[n].vlan, p);
      if i :| 0 <= i < n && InRow(rows[i], p) {
        assert InRow(before[i], p);
      }
      if p in Meaning(rows) && p !in Flat(rows[n].groups) {
        var i :| 0 <= i < n && InRow(before[i], p);
        assert InRow(rows[i], p);
      } else if p in Flat(rows[n].groups) {
        assert InRow(rows[n], p);
      }
    }
  }

  /** Main result: of a table that gives each port one VLAN the parser returns exactly the port-to-VLAN map. */
  lemma ParsedIsTheTable(titles: seq<string>, rows: seq<VlanRow>, ls: seq<RowLayout>, footers: seq<string>, p: string)
    requires AroundOk(titles, footers) && TableOk(rows, ls) && OneVlanPerPort(rows)
    ensures AllPrintable(rows, ls)
    ensures var parsed := Parse(Print(titles, rows, ls, footers));
            && (p in parsed <==> exists i :: 0 <= i < |rows| && InRow(rows[i], p))
            && forall i :: 0 <= i < |rows| && InRow(rows[i], p) ==> p in parsed && parsed[p] == rows[i].vlan
  {
    hide Parse, Print, Meaning, AroundOk, TableOk, OneVlanPerPort, InRow;
    ParsePrint(titles, rows, ls, footers);
    MeaningIsTheTable(rows, p);
  }

  lemma {:induction false} SameMeaning(rows: seq<VlanRow>, rewrapped: seq<VlanRow>)
    requires |rows| == |rewrapped|
    requires forall i :: 0 <= i < |rows| ==>
               rows[i].vlan == rewrapped[i].vlan && Flat(rows[i].groups) == Flat(rewrapped[i].groups)
    ensures Meaning(rows) == Meaning(rewrapped)
    decreases |rows|
  {
    if rows == [] {
    } else {
      SameMeaning(rows[..|rows| - 1], rewrapped[..|rows| - 1]);
    }
  }

  /** How the ports are wrapped, and how the lines are laid out, makes no difference to the parser. */
  lemma WrappingIsInvisible(titles: seq<string>, rows: seq<VlanRow>, ls: seq<RowLayout>, footers: seq<string>,
                            titles': seq<string>, rewrapped: seq<VlanRow>, ls': seq<RowLayout>, footers': seq<string>)
    requires AroundOk(titles, footers) && TableOk(rows, ls)
    requires AroundOk(titles', footers') && TableOk(rewrapped, ls')
    requires |rows| == |rewrapped|
    requires forall i :: 0 <= i < |rows| ==>
               rows[i].vlan == rewrapped[i].vlan && Flat(rows[i].groups) == Flat(rewrapped[i].groups)
    ensures AllPrintable(rows, ls) && AllPrintable(rewrapped, ls')
    ensures Parse(Print(titles, rows, ls, footers)) == Parse(Print(titles', rewrapped, ls', footers'))
  {
    hide Parse, Print, Meaning, AroundOk, TableOk, Flat;
    ParsePrint(titles, rows, ls, footers);
    ParsePrint(titles', rewrapped, ls', footers');
    SameMeaning(rows, rewrapped);
  }

  // ---------------------------------------------------------------------------
  // Why the provisos are there
  // ---------------------------------------------------------------------------

  /** A port-less row is not a row to the parser: its VLAN does not become the current one, so a
      continuation line under it would be given to the VLAN above. */
  lemma ContinuationUnderPortlessBleeds(s: State, r: VlanRow, l: RowLayout, g: seq<string>, w: WrapLayout)
    requires RowOk(r) && LayoutOk(r, l) && r.groups == [] && s.current >= 0
    requires GroupOk(g) && w.indent > 0 && EndOk(w.end) && SomeEt(g)
    ensures ParseLine(ParseLine(s, HeaderLine(r, l)), ContinuationLine(g, w))
            == s.(ports := AssignAll(s.ports, g, s.current))
  {
    hide ParseLine, HeaderLine, ContinuationLine, SomeEt, AssignAll;
    PortlessChangesNothing(s, r, l);
    ContinuationExactly(s, g, w);
  }

  lemma ThreePortsOk()
    ensures GroupOk(["Et0/0", "Et0/2", "Et0/3"])
  {
  }

  lemma ThreePorts()
    ensures PortText(["Et0/0", "Et0/2", "Et0/3"]) == "Et0/0, Et0/2, Et0/3"
  {
    var g := ["Et0/0", "Et0/2", "Et0/3"];
    assert g[1..] == ["Et0/2", "Et0/3"] && g[1..][1..] == ["Et0/3"];
    assert PortText(["Et0/3"]) == "Et0/3";
    assert PortText(["Et0/2", "Et0/3"]) == "Et0/2, Et0/3";
  }

  lemma OnePort()
    ensures GroupOk(["Et1/0"]) && PortText(["Et1/0"]) == "Et1/0" && HasEt("Et1/0")
  {
    assert "Et1/0"[0] == 'E' && "Et1/0"[1] == 't';
  }

  const ALIGNED := VlanRow(1, "default", "active", [["Et0/0", "Et0/2", "Et0/3"], ["Et1/0"]])
  const ALIGNMENT := RowLayout(4, 26, 4, LineEnd(true, ""), [WrapLayout(49, LineEnd(false, ""))])

  lemma AlignedIsOk()
    ensures RowOk(ALIGNED) && LayoutOk(ALIGNED, ALIGNMENT) && Printable(ALIGNED, ALIGNMENT)
  {
    ThreePortsOk();
    OnePort();
    hide GroupOk, HasEt;
    assert HasEt(ALIGNED.groups[1][0]);
  }

  /** The device's own form is among the printed ones: column-aligned, with a comma before the wrap. */
  lemma AlignedFormIsPrinted()
    ensures RowOk(ALIGNED) && LayoutOk(ALIGNED, ALIGNMENT) && Printable(ALIGNED, ALIGNMENT)
    ensures RowLines(ALIGNED, ALIGNMENT) ==
            ["1" + (Spaces(4) + ("default" + (Spaces(26) + ("active" + (Spaces(4) + "Et0/0, Et0/2, Et0/3,"))))),
             Spaces(49) + "Et1/0"]
  {
    AlignedIsOk();
    ThreePorts();
    OnePort();
    hide RowOk, LayoutOk, Spaces, PortText, HasEt;
    var g, h := ALIGNED.groups[0], ALIGNED.groups[1];
    assert FieldText(g, true) == "Et0/0, Et0/2, Et0/3," && FieldText(h, false) == "Et1/0" + "";
    hide FieldText;
    assert HeaderLine(ALIGNED, ALIGNMENT) == HeaderParts(ALIGNED, ALIGNMENT).Line();
    assert ContinuationLine(h, ALIGNMENT.wraps[0]) == Spaces(49) + "Et1/0";
    assert RowLines(ALIGNED, ALIGNMENT) == [HeaderLine(ALIGNED, ALIGNMENT), ContinuationLine(h, ALIGNMENT.wraps[0])];
  }
}
