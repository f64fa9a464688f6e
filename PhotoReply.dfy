/** The reply scanner of `analyze_photo_test` (test_photo.py): the vision
    service's answer is split into lines; a stripped line that starts with
    СУХОЙ: or ВЛАЖНЫЙ: sets the dry or wet reading to the number between its
    first and second colon (a value `float` rejects is skipped), a line that
    starts with ОШИБКА: ends the scan with a failure, any other line is
    ignored. After the scan both readings must be present and the dry one
    must not be below the wet one. */
module PhotoReply {
  import opened Wrappers
  import opened PyStr
  import opened PyFloat

  const DryMarker: string := "СУХОЙ:"
  const WetMarker: string := "ВЛАЖНЫЙ:"
  const ErrorMarker: string := "ОШИБКА:"

  datatype Thermometer = DryBulb | WetBulb

  function MarkerOf(b: Thermometer): string {
    if b == DryBulb then DryMarker else WetMarker
  }

  /** What one line of the reply says. */
  datatype LineKind =
    | Marked(bulb: Thermometer, value: Option<real>)  // value is None where `float` raised
    | ErrorReport
    | Unmarked

  /** `float(line.split(':')[1].strip())`; the marker's own colon makes
      the second piece exist, so the `IndexError` branch cannot be taken. */
  function MarkedValue(line: string): Option<real>
    requires ':' in line
  {
    ParseNum(Strip(SplitOn(line, ':')[1]))
  }

  /** The if/elif chain of the loop body, on the stripped line. */
  function Classify(raw: string): LineKind {
    var line := Strip(raw);
    if StartsWith(line, DryMarker) then
      assert line[5] == DryMarker[5];
      Marked(DryBulb, MarkedValue(line))
    else if StartsWith(line, WetMarker) then
      assert line[7] == WetMarker[7];
      Marked(WetBulb, MarkedValue(line))
    else if StartsWith(line, ErrorMarker) then ErrorReport
    else Unmarked
  }

  /** The three markers begin with different letters, so at most one
      matches and the order of the tests does not matter: each kind of
      line is recognised exactly by its own marker. */
  lemma ClassifyByMarker(raw: string)
    ensures Classify(raw).ErrorReport? <==> StartsWith(Strip(raw), ErrorMarker)
    ensures Classify(raw).Unmarked? <==>
              !StartsWith(Strip(raw), DryMarker) && !StartsWith(Strip(raw), WetMarker)
              && !StartsWith(Strip(raw), ErrorMarker)
    ensures forall b :: Classify(raw).Marked? && Classify(raw).bulb == b <==> StartsWith(Strip(raw), MarkerOf(b))
  {
    var line := Strip(raw);
    if StartsWith(line, DryMarker) {
      assert line[0] == 'С';
    } else if StartsWith(line, WetMarker) {
      assert line[0] == 'В';
    }
    if StartsWith(line, ErrorMarker) {
      assert line[0] == 'О';
    }
  }

  /** The value of a marked line is the text between the first and the
      second colon (or the end of the line), e.g. СУХОЙ: 21:5 reads 21. */
  lemma MarkedValueBetweenColons(b: Thermometer, v: string, rest: string)
    requires ':' !in v
    requires rest == [] || rest[0] == ':'
    ensures ':' in MarkerOf(b) + v + rest
    ensures MarkedValue(MarkerOf(b) + v + rest) == ParseNum(v)
  {
    var m := MarkerOf(b);
    assert m[|m| - 1] == ':' && ':' !in m[..|m| - 1];
    assert (m + v + rest)[|m| - 1] == ':';
    SplitOnSecondPiece(m, v, rest, ':');
    StripIdempotent(v);
  }

  /** A line carrying a marker, a value and possibly more colon-separated
      text, with no whitespace at its ends, is classified by its marker and
      read from its value. */
  lemma ClassifyMarkedLine(b: Thermometer, v: string, rest: string)
    requires ':' !in v
    requires rest == [] || rest[0] == ':'
    requires v + rest == [] || !IsSpace((v + rest)[|v + rest| - 1])
    ensures Classify(MarkerOf(b) + v + rest) == Marked(b, ParseNum(v))
  {
    var line := MarkerOf(b) + v + rest;
    assert line[0] == MarkerOf(b)[0];
    assert line[|line| - 1] == if v + rest == [] then ':' else (v + rest)[|v + rest| - 1];
    StripUnpadded(line);
    assert line[..|MarkerOf(b)|] == MarkerOf(b);
    ClassifyByMarker(line);
    MarkedValueBetweenColons(b, v, rest);
  }

  /** Whitespace around a line does not change how it is read: the line is
      stripped before the markers are tested. */
  lemma ClassifyPadded(pad1: string, line: string, pad2: string)
    requires AllSpace(pad1) && AllSpace(pad2)
    ensures Classify(pad1 + line + pad2) == Classify(line)
  {
    StripPadded(pad1, line, pad2);
  }

  /** A marker with nothing after its colon is a marked line without a
      value, which the loop passes over. */
  lemma MarkerWithoutValue(b: Thermometer)
    ensures Classify(MarkerOf(b)) == Marked(b, None)
  {
    assert MarkerOf(b) + [] + [] == MarkerOf(b);
    ClassifyMarkedLine(b, [], []);
    ParseNumBlank([]);
  }

  /** " 21" reads as 21. */
  lemma TwentyOneParses()
    ensures ParseNum(" 21") == Some(21.0)
  {
    StripLeadingSpace(' ', "21");
    StripUnpadded("21");
    assert "21"[1..] == "1" && "1"[1..] == [];
    assert IndexOfDot("21") == 2;
    assert "21"[..1] == "2" && "2"[..0] == [];
    assert DigitsValue("21") == 21;
    assert ParsePointed("21", []) == Some(21.0);
  }

  /** "СУХОЙ: 21:5" sets the dry reading to 21: the value stops at the
      second colon. */
  lemma SecondColonExample()
    ensures Classify("СУХОЙ: 21:5") == Marked(DryBulb, Some(21.0))
  {
    assert "СУХОЙ: 21:5" == DryMarker + " 21" + ":5";
    ClassifyMarkedLine(DryBulb, " 21", ":5");
    TwentyOneParses();
  }

  /** The reading a line gives for bulb `b`, if it gives one. */
  function Reading(line: string, b: Thermometer): Option<real> {
    match Classify(line)
    case Marked(b', v) => if b' == b then v else None
    case _ => None
  }

  /** A line the loop passes over without effect: no marker, or a marker
      whose value `float` rejected. */
  predicate Ignored(line: string) {
    Classify(line).Unmarked? || (Classify(line).Marked? && Classify(line).value.None?)
  }

  // ---------------------------------------------------------------------
  // The scan: the for loop at test_photo.py:83-109 as a fold
  // ---------------------------------------------------------------------

  datatype Readings = Readings(dry: Option<real>, wet: Option<real>) {
    function Get(b: Thermometer): Option<real> {
      if b == DryBulb then dry else wet
    }

    function Put(b: Thermometer, v: real): Readings {
      if b == DryBulb then this.(dry := Some(v)) else this.(wet := Some(v))
    }
  }

  /** The loop has returned on an ОШИБКА: line, or is still scanning. */
  datatype Scan = Aborted | Scanning(readings: Readings)

  /** One pass of the loop body. */
  function Step(r: Readings, line: string): Scan {
    match Classify(line)
    case Marked(b, Some(v)) => Scanning(r.Put(b, v))
    case Marked(_, None) => Scanning(r)
    case ErrorReport => Aborted
    case Unmarked => Scanning(r)
  }

  /** The state after the loop has seen `lines`, from `t_dry = t_wet = None`. */
  function ScanLines(lines: seq<string>): Scan {
    if lines == [] then Scanning(Readings(None, None))
    else
      match ScanLines(lines[..|lines| - 1])
      case Aborted => Aborted
      case Scanning(r) => Step(r, lines[|lines| - 1])
  }

  /** The fold takes one more line by one more pass of the loop body. */
  lemma ScanNext(lines: seq<string>, i: nat)
    requires i < |lines|
    ensures ScanLines(lines[..i + 1])
         == if ScanLines(lines[..i]).Aborted? then Aborted else Step(ScanLines(lines[..i]).readings, lines[i])
  {
    assert lines[..i + 1][..i] == lines[..i];
  }

  ghost predicate HasErrorLine(lines: seq<string>) {
    exists k :: 0 <= k < |lines| && Classify(lines[k]).ErrorReport?
  }

  /** The readings for `b` that the lines give, line by line. */
  function ReadingsOf(lines: seq<string>, b: Thermometer): (rs: seq<Option<real>>)
    ensures |rs| == |lines|
  {
    if lines == [] then []
    else ReadingsOf(lines[..|lines| - 1], b) + [Reading(lines[|lines| - 1], b)]
  }

  lemma {:induction false} ReadingsOfAt(lines: seq<string>, b: Thermometer, k: nat)
    requires k < |lines|
    ensures ReadingsOf(lines, b)[k] == Reading(lines[k], b)
  {
    if k < |lines| - 1 {
      ReadingsOfAt(lines[..|lines| - 1], b, k);
    }
  }

  /** The last present value of `rs`, if any. */
  function LastValue(rs: seq<Option<real>>): Option<real> {
    if rs == [] then None
    else if rs[|rs| - 1].Some? then rs[|rs| - 1]
    else LastValue(rs[..|rs| - 1])
  }

  /** `LastValue` is absent exactly when no value is present. */
  lemma {:induction false} LastValueNone(rs: seq<Option<real>>)
    ensures LastValue(rs).None? <==> forall k :: 0 <= k < |rs| ==> rs[k].None?
  {
    if rs != [] {
      var p := rs[..|rs| - 1];
      LastValueNone(p);
      assert forall k :: 0 <= k < |p| ==> p[k] == rs[k];
    }
  }

  /** A present `LastValue` is the value at a position after which no value
      is present. */
  lemma {:induction false} LastValueLast(rs: seq<Option<real>>)
    requires LastValue(rs).Some?
    ensures exists k :: 0 <= k < |rs| && rs[k] == LastValue(rs)
              && forall j :: k < j < |rs| ==> rs[j].None?
  {
    var n := |rs| - 1;
    if rs[n].Some? {
      assert rs[n] == LastValue(rs);
    } else {
      var p := rs[..n];
      LastValueLast(p);
      var k :| 0 <= k < |p| && p[k] == LastValue(p) && forall j :: k < j < |p| ==> p[j].None?;
      assert rs[k] == LastValue(rs);
      assert forall j :: k < j < |rs| ==> rs[j].None?;
    }
  }

  /** One pass of the loop body moves a reading for `b` into the state and
      otherwise leaves the state's `b` reading alone. */
  lemma StepReading(r: Readings, x: string, b: Thermometer)
    requires !Classify(x).ErrorReport?
    ensures Step(r, x).Scanning?
    ensures Step(r, x).readings.Get(b) == if Reading(x, b).Some? then Reading(x, b) else r.Get(b)
  {
  }

  /** The scan aborts exactly when some line is an ОШИБКА: line, wherever it
      stands and whatever readings came before it. */
  lemma {:induction false} ScanAbortedIff(lines: seq<string>)
    ensures ScanLines(lines).Aborted? <==> HasErrorLine(lines)
  {
    if lines != [] {
      var p, x := lines[..|lines| - 1], lines[|lines| - 1];
      ScanAbortedIff(p);
      assert forall k :: 0 <= k < |p| ==> p[k] == lines[k];
      if HasErrorLine(p) {
        var k :| 0 <= k < |p| && Classify(p[k]).ErrorReport?;
        assert Classify(lines[k]).ErrorReport?;
      } else if HasErrorLine(lines) {
        var k :| 0 <= k < |lines| && Classify(lines[k]).ErrorReport?;
        assert k == |lines| - 1;
      }
    }
  }

  /** Once aborted, further lines are never looked at. */
  lemma AbortIsFinal(p: seq<string>, q: seq<string>)
    requires ScanLines(p).Aborted?
    ensures ScanLines(p + q) == Aborted
  {
    ScanAbortedIff(p);
    var k :| 0 <= k < |p| && Classify(p[k]).ErrorReport?;
    assert (p + q)[k] == p[k];
    ScanAbortedIff(p + q);
  }

  /** An ignored line changes nothing, wherever it is inserted. */
  lemma {:induction false} IgnoredLineInvisible(a: seq<string>, x: string, c: seq<string>)
    requires Ignored(x)
    ensures ScanLines(a + [x] + c) == ScanLines(a + c)
    decreases |c|
  {
    if c == [] {
      assert (a + [x] + c)[..|a|] == a;
      assert a + c == a;
    } else {
      var c', y := c[..|c| - 1], c[|c| - 1];
      IgnoredLineInvisible(a, x, c');
      assert (a + [x] + c)[..|a + [x] + c| - 1] == a + [x] + c';
      assert (a + c)[..|a + c| - 1] == a + c';
    }
  }

  /** Without an ОШИБКА: line, each reading the scan ends with is the value
      of the last line that gives one: later lines overwrite earlier ones. */
  lemma {:induction false} ScanKeepsLastReading(lines: seq<string>, b: Thermometer)
    requires !HasErrorLine(lines)
    ensures ScanLines(lines).Scanning?
    ensures ScanLines(lines).readings.Get(b) == LastValue(ReadingsOf(lines, b))
  {
    ScanAbortedIff(lines);
    if lines != [] {
      var p, x := lines[..|lines| - 1], lines[|lines| - 1];
      assert !Classify(x).ErrorReport?;
      ScanKeepsLastReading(p, b);
      StepReading(ScanLines(p).readings, x, b);
      var rs := ReadingsOf(lines, b);
      assert rs[..|rs| - 1] == ReadingsOf(p, b);
    }
  }

  // ---------------------------------------------------------------------
  // The result of analyze_photo_test
  // ---------------------------------------------------------------------

  datatype PhotoError =
    | ReportedUnreadable  // the service answered with an ОШИБКА: line
    | ReadingsMissing     // a reading was not found in the answer
    | WetAboveDry         // the wet reading exceeds the dry one

  /** The dictionary the function returns. */
  datatype PhotoAnalysis = PhotoAnalysis(
    success: bool,
    tDry: Option<real>,
    tWet: Option<real>,
    error: Option<PhotoError>,
    rawResponse: string)

  function Failed(e: PhotoError, aiResponse: string): PhotoAnalysis {
    PhotoAnalysis(false, None, None, Some(e), aiResponse)
  }

  function ReplyLines(aiResponse: string): seq<string> {
    SplitOn(aiResponse, '\n')
  }

  /** What `analyze_photo_test` returns for the service's (stripped) answer. */
  function Analysis(aiResponse: string): (r: PhotoAnalysis)
    ensures r.rawResponse == aiResponse
    ensures r.success <==> r.error.None?
    ensures !r.success ==> r.tDry.None? && r.tWet.None?
    ensures r.success ==> r.tDry.Some? && r.tWet.Some? && r.tDry.value >= r.tWet.value
  {
    match ScanLines(ReplyLines(aiResponse))
    case Aborted => Failed(ReportedUnreadable, aiResponse)
    case Scanning(Readings(d, w)) =>
      if d.None? || w.None? then Failed(ReadingsMissing, aiResponse)
      else if d.value < w.value then Failed(WetAboveDry, aiResponse)
      else PhotoAnalysis(true, d, w, None, aiResponse)
  }

  /** The loop and the checks after it, as the source writes them. */
  method AnalyzeReply(aiResponse: string) returns (r: PhotoAnalysis)
    ensures r == Analysis(aiResponse)
  {
    var lines := SplitOn(aiResponse, '\n');
    var tDry: Option<real> := None;
    var tWet: Option<real> := None;
    for i := 0 to |lines|
      invariant ScanLines(lines[..i]) == Scanning(Readings(tDry, tWet))
    {
      ScanNext(lines, i);
      var line := Strip(lines[i]);
      if StartsWith(line, DryMarker) {
        assert line[5] == DryMarker[5];
        var v := MarkedValue(line);
        if v.Some? {
          tDry := v;
        }
      } else if StartsWith(line, WetMarker) {
        assert line[7] == WetMarker[7];
        var v := MarkedValue(line);
        if v.Some? {
          tWet := v;
        }
      } else if StartsWith(line, ErrorMarker) {
        AbortIsFinal(lines[..i + 1], lines[i + 1..]);
        assert lines[..i + 1] + lines[i + 1..] == lines;
        return Failed(ReportedUnreadable, aiResponse);
      }
    }
    assert lines[..|lines|] == lines;
    if tDry.None? || tWet.None? {
      return Failed(ReadingsMissing, aiResponse);
    }
    if tDry.value < tWet.value {
      return Failed(WetAboveDry, aiResponse);
    }
    return PhotoAnalysis(true, tDry, tWet, None, aiResponse);
  }

  // ---------------------------------------------------------------------
  // Properties of the result
  // ---------------------------------------------------------------------

  /** An ОШИБКА: line anywhere gives the service-error failure with no
      readings, and only an ОШИБКА: line does. */
  lemma AnalysisReportedIff(aiResponse: string)
    ensures Analysis(aiResponse).error == Some(ReportedUnreadable)
            <==> HasErrorLine(ReplyLines(aiResponse))
  {
    ScanAbortedIff(ReplyLines(aiResponse));
  }

  /** With no ОШИБКА: line, the result is decided by the last dry and the
      last wet reading: success carrying exactly those two values when dry
      is not below wet (equal readings pass), the ordering failure when dry
      is below wet, and the missing-reading failure, never a defaulted pair,
      when either is absent. */
  lemma AnalysisOfLastReadings(aiResponse: string)
    requires !HasErrorLine(ReplyLines(aiResponse))
    ensures var d := LastValue(ReadingsOf(ReplyLines(aiResponse), DryBulb));
            var w := LastValue(ReadingsOf(ReplyLines(aiResponse), WetBulb));
            Analysis(aiResponse)
            == if d.None? || w.None? then Failed(ReadingsMissing, aiResponse)
               else if d.value >= w.value then PhotoAnalysis(true, d, w, None, aiResponse)
               else Failed(WetAboveDry, aiResponse)
  {
    ScanKeepsLastReading(ReplyLines(aiResponse), DryBulb);
    ScanKeepsLastReading(ReplyLines(aiResponse), WetBulb);
  }

  /** A successful result comes from a reply without an ОШИБКА: line. */
  lemma AnalysisSuccessHasNoErrorLine(aiResponse: string)
    requires Analysis(aiResponse).success
    ensures !HasErrorLine(ReplyLines(aiResponse))
  {
    ScanAbortedIff(ReplyLines(aiResponse));
  }

  /** A number as the vision service is asked to write it: no colon, no
      line break and no whitespace at its end, read by `float` as `x`. */
  predicate IsNumberText(a: string, x: real) {
    && a != [] && !IsSpace(a[|a| - 1])
    && ':' !in a && '\n' !in a
    && ParseNum(a) == Some(x)
  }

  /** A line in the requested "СУХОЙ: XX.X" form reads as its number. */
  lemma ClassifyNumberLine(b: Thermometer, a: string, x: real)
    requires IsNumberText(a, x)
    ensures Classify(MarkerOf(b) + " " + a) == Marked(b, Some(x))
  {
    assert ':' !in " " + a;
    assert MarkerOf(b) + " " + a == MarkerOf(b) + (" " + a) + [];
    ClassifyMarkedLine(b, " " + a, []);
    StripLeadingSpace(' ', a);
  }

  /** The requested two-line reply splits into its dry and its wet line. */
  lemma WellFormedReplyLines(a: string, b: string)
    requires '\n' !in a && '\n' !in b
    ensures ReplyLines(DryMarker + " " + a + "\n" + WetMarker + " " + b)
         == [DryMarker + " " + a, WetMarker + " " + b]
  {
    var l1, l2 := DryMarker + " " + a, WetMarker + " " + b;
    assert '\n' !in l1 && '\n' !in l2;
    assert DryMarker + " " + a + "\n" + WetMarker + " " + b == JoinWith([l1, l2], '\n');
    SplitOnJoin([l1, l2], '\n');
  }

  /** A dry line then a wet line, each carrying a number, leave the scan
      holding the two numbers. */
  lemma ScanTwoLines(l1: string, l2: string, x: real, y: real)
    requires Classify(l1) == Marked(DryBulb, Some(x)) && Classify(l2) == Marked(WetBulb, Some(y))
    ensures ScanLines([l1, l2]) == Scanning(Readings(Some(x), Some(y)))
  {
    var r1 := Readings(Some(x), None);
    assert ScanLines([l1]) == Scanning(r1) by {
      assert [l1][..0] == [];
    }
    assert [l1, l2][..1] == [l1];
  }

  /** A reply of a dry line followed by a wet line, each carrying a number,
      reads back as the two numbers. */
  lemma AnalysisOfTwoLines(text: string, l1: string, l2: string, x: real, y: real)
    requires ReplyLines(text) == [l1, l2]
    requires Classify(l1) == Marked(DryBulb, Some(x)) && Classify(l2) == Marked(WetBulb, Some(y))
    ensures Analysis(text)
         == if x >= y then PhotoAnalysis(true, Some(x), Some(y), None, text)
            else Failed(WetAboveDry, text)
  {
    ScanTwoLines(l1, l2, x, y);
  }

  /** A reply in the requested two-line form "СУХОЙ: a\nВЛАЖНЫЙ: b" reads
      back as the two numbers: success when dry is not below wet, the
      ordering failure otherwise. */
  lemma AnalysisOfWellFormedReply(a: string, b: string, x: real, y: real)
    requires IsNumberText(a, x) && IsNumberText(b, y)
    ensures var text := DryMarker + " " + a + "\n" + WetMarker + " " + b;
            Analysis(text)
            == if x >= y then PhotoAnalysis(true, Some(x), Some(y), None, text)
               else Failed(WetAboveDry, text)
  {
    WellFormedReplyLines(a, b);
    ClassifyNumberLine(DryBulb, a, x);
    ClassifyNumberLine(WetBulb, b, y);
    AnalysisOfTwoLines(DryMarker + " " + a + "\n" + WetMarker + " " + b,
      DryMarker + " " + a, WetMarker + " " + b, x, y);
  }

  /** The readings written in tenths of a degree ("XX.X") are number texts. */
  lemma FormatTenthsIsNumberText(n: int)
    ensures IsNumberText(FormatTenths(n), n as real / 10.0)
  {
    FormatTenthsChars(n);
    FormatTenthsParses(n);
  }

  /** A reading in the "XX.X" form is a number text. */
  lemma TenthsToken(n: int, t: string)
    requires t == FormatTenths(n)
    ensures IsNumberText(t, n as real / 10.0)
  {
    FormatTenthsIsNumberText(n);
  }

  lemma ExampleTokens()
    ensures IsNumberText("22.0", 22.0) && IsNumberText("19.0", 19.0)
  {
    assert FormatTenths(220) == "22.0" && FormatTenths(190) == "19.0";
    TenthsToken(220, "22.0");
    TenthsToken(190, "19.0");
  }

  /** The answer "СУХОЙ: 22.0", line break, "ВЛАЖНЫЙ: 19.0" gives dry 22,
      wet 19. */
  lemma ReplyExample()
    ensures var text := DryMarker + " " + "22.0" + "\n" + WetMarker + " " + "19.0";
            Analysis(text) == PhotoAnalysis(true, Some(22.0), Some(19.0), None, text)
  {
    ExampleTokens();
    AnalysisOfWellFormedReply("22.0", "19.0", 22.0, 19.0);
  }
}
