/**
 * The cut-list table of both programs: the rows the user adds by hand
 * (`_add_range`) or imports from a text file (`_import_from_text`, one range
 * per line), the list of segments handed to the cutter (`_collect_segments`),
 * the status column the cutter's messages update (`_set_row_status`), and the
 * timeline's request to drop the row of a deleted selection
 * (`_timeline_delete_selection`).
 *
 * The original program stores the times as typed; the timeline program
 * rewrites them as `seconds_to_hms` of the parsed values. `Table.hmsTexts`
 * chooses between the two.
 */
module RangeTable {
  import opened Wrappers
  import opened Numerals
  import opened Text
  import opened TimeCodec
  import opened Segments
  import opened Seqs
  import Timeline

  /** The status a new row starts with. */
  const Pending := "Beklemede"

  /** One table row: the start and end texts and the status column. */
  datatype Row = Row(start: string, end: string, status: string)

  /** Why `_add_range` refuses a pair of times. */
  datatype RangeError =
    | BadTime(reason: TimeError)  // `parse_time_to_seconds` raised
    | NotAfter                    // the end is not after the start

  /** The times of an accepted range: both parsed, the end after the start. */
  function CheckRange(start: string, end: string): (r: Result<Segment, RangeError>)
    ensures r.Ok? ==> r.value.startText == start && r.value.endText == end
                      && ParseTimeToSeconds(start) == Ok(r.value.startSec)
                      && ParseTimeToSeconds(end) == Ok(r.value.endSec)
                      && Duration(r.value) > 0.0
    ensures r.Err? <==> ParseTimeToSeconds(start).Err? || ParseTimeToSeconds(end).Err?
                        || ParseTimeToSeconds(end).value <= ParseTimeToSeconds(start).value
    ensures r.Err? && ParseTimeToSeconds(start).Err? ==> r.error == BadTime(ParseTimeToSeconds(start).error)
  {
    match ParseTimeToSeconds(start)
    case Err(why) => Err(BadTime(why))
    case Ok(s) =>
      match ParseTimeToSeconds(end)
      case Err(why) => Err(BadTime(why))
      case Ok(e) => if e <= s then Err(NotAfter) else Ok(Segment(start, end, s, e))
  }

  /** A segment whose texts parse to its times. */
  predicate Parsed(g: Segment) {
    ParseTimeToSeconds(g.startText) == Ok(g.startSec) && ParseTimeToSeconds(g.endText) == Ok(g.endSec)
  }

  // ---------------------------------------------------------------------
  // The line grammar of `_import_from_text`
  // ---------------------------------------------------------------------

  /**
   * The separators in the order they are tried: '-', then " to " in the
   * lower-cased line, then ',', then exactly two whitespace-separated words.
   */
  function Separate(line: string): Option<seq<string>> {
    if Contains(line, "-") then Some(SplitOn(line, "-"))
    else if Contains(Lower(line), " to ") then Some(SplitOn(Lower(line), " to "))
    else if Contains(line, ",") then Some(SplitOn(line, ","))
    else if |Words(line)| == 2 then Some(Words(line))
    else None
  }

  /**
   * The two stripped time texts of a stripped line; ".." is the fallback when
   * the separators above did not give exactly two pieces, and then only the
   * first two pieces count.
   */
  function LineTokens(line: string): (r: Option<(string, string)>)
    ensures r.Some? ==> |r.value.0| <= |line| && |r.value.1| <= |line|
  {
    var tokens := Separate(line);
    if tokens.Some? && |tokens.value| == 2 then
      SplitPieces(line, tokens.value);
      Some((Strip(tokens.value[0]), Strip(tokens.value[1])))
    else if Contains(line, "..") then
      SplitOnContains(line, "..");
      var pieces := SplitOn(line, "..");
      SplitPieces(line, pieces);
      Some((Strip(pieces[0]), Strip(pieces[1])))
    else None
  }

  /** The pieces a split produces are no longer than the line (a bound used by `LineTokens`). */
  lemma SplitPieces(line: string, pieces: seq<string>)
    requires |pieces| >= 2
    requires pieces == SplitOn(line, "-") || pieces == SplitOn(Lower(line), " to ") || pieces == SplitOn(line, ",")
             || pieces == Words(line) || pieces == SplitOn(line, "..")
    ensures |pieces[0]| <= |line| && |pieces[1]| <= |line|
  {
    if pieces == Words(line) {
      WordsShorter(line);
    } else if pieces == SplitOn(line, "-") {
      SplitOnShorter(line, "-");
    } else if pieces == SplitOn(Lower(line), " to ") {
      SplitOnShorter(Lower(line), " to ");
    } else if pieces == SplitOn(line, ",") {
      SplitOnShorter(line, ",");
    } else {
      SplitOnShorter(line, "..");
    }
  }

  lemma {:induction false} SplitOnShorter(s: string, sep: string)
    requires sep != []
    ensures forall k | 0 <= k < |SplitOn(s, sep)| :: |SplitOn(s, sep)[k]| <= |s|
  {
    if |s| >= |sep| {
      if s[..|sep|] == sep {
        SplitOnShorter(s[|sep|..], sep);
      } else {
        SplitOnShorter(s[1..], sep);
      }
    }
  }

  lemma {:induction false} WordsShorter(s: string)
    ensures forall k | 0 <= k < |Words(s)| :: |Words(s)[k]| <= |s|
  {
    if s != [] {
      if IsSpace(s[0]) {
        WordsShorter(s[1..]);
      } else {
        WordsShorter(s[WordLength(s)..]);
      }
    }
  }

  /** A pair of time texts as the import accepts it: both parse and the end is after the start. */
  function ImportPair(start: string, end: string): (r: Option<Segment>)
    ensures r.Some? <==> CheckRange(start, end).Ok?
    ensures r.Some? ==> r.value == CheckRange(start, end).value
  {
    match CheckRange(start, end)
    case Ok(g) => Some(g)
    case Err(_) => None
  }

  /**
   * One line of the import file: blank lines and '#' comments are skipped, as
   * is every line without two time texts, with a time that does not parse,
   * or whose end is not after its start.
   */
  function ImportLine(raw: string): (r: Option<Segment>)
    ensures r.Some? ==> Parsed(r.value) && Duration(r.value) > 0.0
    ensures Strip(raw) == [] || StartsWith(Strip(raw), "#") ==> r == None
  {
    var line := Strip(raw);
    if line == [] || StartsWith(line, "#") then None
    else
      match LineTokens(line)
      case None => None
      case Some((start, end)) => ImportPair(start, end)
  }

  /** `f` applied to each element, in order. */
  function Map<A, B>(f: A -> B, xs: seq<A>): (ys: seq<B>)
    ensures |ys| == |xs|
  {
    if xs == [] then [] else Map(f, xs[..|xs| - 1]) + [f(xs[|xs| - 1])]
  }

  lemma {:induction false} MapAt<A, B>(f: A -> B, xs: seq<A>, k: nat)
    requires k < |xs|
    ensures Map(f, xs)[k] == f(xs[k])
  {
    var init := xs[..|xs| - 1];
    if k < |init| {
      MapAt(f, init, k);
      assert xs[k] == init[k];
    }
  }

  lemma MapSnoc<A, B>(f: A -> B, xs: seq<A>, x: A)
    ensures Map(f, xs + [x]) == Map(f, xs) + [f(x)]
  {
    assert (xs + [x])[..|xs|] == xs;
  }

  lemma {:induction false} MapConcat<A, B>(f: A -> B, a: seq<A>, b: seq<A>)
    ensures Map(f, a + b) == Map(f, a) + Map(f, b)
  {
    if b == [] {
      assert a + b == a;
    } else {
      var init, last := b[..|b| - 1], b[|b| - 1];
      Snoc(a, b);
      MapSnoc(f, a + init, last);
      MapSnoc(f, init, last);
      MapConcat(f, a, init);
      Assoc(Map(f, a), Map(f, init), [f(last)]);
    }
  }

  lemma MapDelete<A, B>(f: A -> B, xs: seq<A>, k: nat)
    requires k < |xs|
    ensures Map(f, xs[..k] + xs[k + 1..]) == Map(f, xs)[..k] + Map(f, xs)[k + 1..]
  {
    var d, m := xs[..k] + xs[k + 1..], Map(f, xs);
    forall j | 0 <= j < |d|
      ensures Map(f, d)[j] == (m[..k] + m[k + 1..])[j]
    {
      var i := if j < k then j else j + 1;
      MapAt(f, d, j);
      MapAt(f, xs, i);
      assert d[j] == xs[i];
    }
  }

  lemma Snoc<T>(a: seq<T>, b: seq<T>)
    requires b != []
    ensures a + b == (a + b[..|b| - 1]) + [b[|b| - 1]] && b == b[..|b| - 1] + [b[|b| - 1]]
  {
  }

  lemma TakeSnoc<T>(s: seq<T>, i: nat)
    requires i < |s|
    ensures s[..i + 1] == s[..i] + [s[i]]
  {
  }

  lemma TakeDrop<T>(s: seq<T>, i: nat)
    requires i <= |s|
    ensures s[..i] + s[i..] == s
  {
  }

  /** What one line contributes: its range, or nothing. */
  function Kept(o: Option<Segment>): (gs: seq<Segment>)
    ensures |gs| <= 1
  {
    match o
    case Some(g) => [g]
    case None => []
  }

  /** The ranges among a sequence of outcomes, in order. */
  function Somes(os: seq<Option<Segment>>): (gs: seq<Segment>)
    ensures |gs| <= |os|
  {
    if os == [] then [] else Somes(os[..|os| - 1]) + Kept(os[|os| - 1])
  }

  lemma SomesSnoc(os: seq<Option<Segment>>, o: Option<Segment>)
    ensures Somes(os + [o]) == Somes(os) + Kept(o)
  {
    assert (os + [o])[..|os|] == os;
  }

  lemma {:induction false} SomesConcat(a: seq<Option<Segment>>, b: seq<Option<Segment>>)
    ensures Somes(a + b) == Somes(a) + Somes(b)
  {
    if b == [] {
      assert a + b == a;
    } else {
      var init, last := b[..|b| - 1], b[|b| - 1];
      Snoc(a, b);
      SomesSnoc(a + init, last);
      SomesSnoc(init, last);
      SomesConcat(a, init);
      Assoc(Somes(a), Somes(init), Kept(last));
    }
  }

  /** Each range among the outcomes is one of the outcomes' ranges. */
  lemma {:induction false} SomesFrom(os: seq<Option<Segment>>, k: nat)
    requires k < |Somes(os)|
    ensures exists j | 0 <= j < |os| :: os[j] == Some(Somes(os)[k])
  {
    var init, last := os[..|os| - 1], os[|os| - 1];
    if k < |Somes(init)| {
      SomesFrom(init, k);
      var j :| 0 <= j < |init| && init[j] == Some(Somes(init)[k]);
      assert os[j] == init[j];
    } else {
      assert os[|os| - 1] == Some(Somes(os)[k]);
    }
  }

  /** A line's outcome among a file's outcomes is a range with parsing texts and a positive duration. */
  lemma OutcomeParsed(lines: seq<string>, k: nat)
    requires k < |lines|
    ensures Map(ImportLine, lines)[k].Some? ==>
      Parsed(Map(ImportLine, lines)[k].value) && Duration(Map(ImportLine, lines)[k].value) > 0.0
  {
    MapAt(ImportLine, lines, k);
  }

  /** The ranges a file of lines contributes, in file order. */
  function ImportSegments(lines: seq<string>): (gs: seq<Segment>)
    ensures |gs| <= |lines|
  {
    Somes(Map(ImportLine, lines))
  }

  /** Every imported range has parsing texts and a positive duration, and comes from one of the lines. */
  lemma ImportedRanges(lines: seq<string>)
    ensures forall k | 0 <= k < |ImportSegments(lines)| ::
      Parsed(ImportSegments(lines)[k]) && Duration(ImportSegments(lines)[k]) > 0.0
      && exists j | 0 <= j < |lines| :: ImportLine(lines[j]) == Some(ImportSegments(lines)[k])
  {
    var os := Map(ImportLine, lines);
    forall k | 0 <= k < |Somes(os)|
      ensures Parsed(Somes(os)[k]) && Duration(Somes(os)[k]) > 0.0
              && exists j | 0 <= j < |lines| :: ImportLine(lines[j]) == Some(Somes(os)[k])
    {
      SomesFrom(os, k);
      var j :| 0 <= j < |os| && os[j] == Some(Somes(os)[k]);
      MapAt(ImportLine, lines, j);
    }
  }

  /** Importing two files one after the other is importing their concatenation. */
  lemma ImportConcat(a: seq<string>, b: seq<string>)
    ensures ImportSegments(a + b) == ImportSegments(a) + ImportSegments(b)
  {
    MapConcat(ImportLine, a, b);
    SomesConcat(Map(ImportLine, a), Map(ImportLine, b));
  }

  // Times texts in the formatters' alphabet, and why each separator finds them.

  /** A non-empty text of digits, ':' and '.', as the formatters write times. */
  predicate TimeText(s: string) {
    s != [] && Clean(s)
  }

  lemma {:induction false} CleanLacks(s: string, c: char)
    requires Clean(s) && !IsDigit(c) && c != ':' && c != '.'
    ensures !HasChar(s, c)
  {
    if s != [] {
      CleanLacks(s[1..], c);
    }
  }

  lemma {:induction false} CleanSpaceFree(s: string)
    requires Clean(s)
    ensures forall i | 0 <= i < |s| :: !IsSpace(s[i])
  {
    if s != [] {
      CleanSpaceFree(s[1..]);
      assert forall i | 1 <= i < |s| :: s[i] == s[1..][i - 1];
    }
  }

  lemma {:induction false} LowerClean(s: string)
    requires Clean(s)
    ensures Lower(s) == s
  {
    if s != [] {
      LowerClean(s[1..]);
      assert [s[0]] + s[1..] == s;
    }
  }

  /** Two time texts around a separator: the line is already stripped and is no comment. */
  lemma LineEdges(a: string, sep: string, b: string)
    requires TimeText(a) && TimeText(b)
    ensures Strip(a + sep + b) == a + sep + b && !StartsWith(a + sep + b, "#")
    ensures Strip(a) == a && Strip(b) == b
  {
    var line := a + sep + b;
    CleanLast(a);
    CleanLast(b);
    assert line[0] == a[0] && line[|line| - 1] == b[|b| - 1];
    StripUnchanged(line);
    StripUnchanged(a);
    StripUnchanged(b);
    assert line[..1] == [a[0]];
  }

  /** A single-character separator that occurs in neither piece splits the line into exactly those pieces. */
  lemma SplitAround(a: string, sep: string, b: string)
    requires sep != [] && !HasChar(a, sep[0]) && !HasChar(b, sep[0])
    ensures SplitOn(a + sep + b, sep) == [a, b]
    ensures Contains(a + sep + b, sep)
  {
    SplitOnLead(a, sep, b);
    SplitOnAbsent(b, sep);
    SplitOnContains(a + sep + b, sep);
  }

  /** A separator whose first character is absent from the line is not in it. */
  lemma Absent(s: string, sep: string)
    requires sep != [] && !HasChar(s, sep[0])
    ensures !Contains(s, sep)
  {
    SplitOnAbsent(s, sep);
    SplitOnContains(s, sep);
  }

  lemma LacksAround(a: string, sep: string, b: string, c: char)
    requires Clean(a) && Clean(b) && !IsDigit(c) && c != ':' && c != '.' && !HasChar(sep, c)
    ensures !HasChar(a + sep + b, c)
  {
    CleanLacks(a, c);
    CleanLacks(b, c);
    HasCharConcat(a, sep, c);
    HasCharConcat(a + sep, b, c);
  }

  /** Once the separators give exactly two pieces, the tokens are those pieces stripped. */
  lemma PairTokens(line: string, a: string, b: string)
    requires Separate(line) == Some([a, b])
    ensures LineTokens(line) == Some((Strip(a), Strip(b)))
  {
  }

  /** With no separator giving two pieces, ".." splits the line. */
  lemma DotsTokens(line: string, a: string, b: string)
    requires Separate(line) == None && Contains(line, "..") && SplitOn(line, "..") == [a, b]
    ensures LineTokens(line) == Some((Strip(a), Strip(b)))
  {
  }

  /** `A-B`: the dash is tried first, so any two texts without a dash are the pieces. */
  lemma DashSeparate(a: string, b: string)
    requires !HasChar(a, '-') && !HasChar(b, '-')
    ensures Separate(a + "-" + b) == Some([a, b])
  {
    SplitAround(a, "-", b);
  }

  lemma DashLine(a: string, b: string)
    requires !HasChar(a, '-') && !HasChar(b, '-')
    ensures LineTokens(a + "-" + b) == Some((Strip(a), Strip(b)))
  {
    DashSeparate(a, b);
    PairTokens(a + "-" + b, a, b);
  }

  /** `A to B` with time texts A and B. */
  lemma ToSeparate(a: string, b: string)
    requires TimeText(a) && TimeText(b)
    ensures Separate(a + " to " + b) == Some([a, b])
  {
    var line := a + " to " + b;
    LacksAround(a, " to ", b, '-');
    Absent(line, "-");
    assert Lower(" to ") == " to ";
    LowerAround(a, " to ", b);
    CleanLacks(a, ' ');
    CleanLacks(b, ' ');
    SplitAround(a, " to ", b);
  }

  /** The line of two time texts around `sep` is its own lower-case form. */
  lemma LowerAround(a: string, sep: string, b: string)
    requires Clean(a) && Clean(b) && Lower(sep) == sep
    ensures Lower(a + sep + b) == a + sep + b
  {
    LowerConcat(a, sep);
    LowerConcat(a + sep, b);
    LowerClean(a);
    LowerClean(b);
  }

  /** A line made of time texts and `sep` has no " to " when `sep` has no space or no 't'. */
  lemma NoTo(a: string, sep: string, b: string)
    requires Clean(a) && Clean(b) && Lower(sep) == sep
    requires !HasChar(sep, ' ') || !HasChar(sep, 't')
    ensures !Contains(Lower(a + sep + b), " to ")
  {
    var line := a + sep + b;
    LowerAround(a, sep, b);
    if Contains(line, " to ") {
      if !HasChar(sep, ' ') {
        ContainsHas(line, " to ", 0);
        LacksAround(a, sep, b, ' ');
      } else {
        ContainsHas(line, " to ", 1);
        LacksAround(a, sep, b, 't');
      }
      assert false;
    }
  }

  /** Neither '-', " to " nor ',' occurs in a line of time texts joined by `sep`. */
  lemma NoEarlierSeparator(a: string, sep: string, b: string)
    requires Clean(a) && Clean(b) && Lower(sep) == sep && !HasChar(sep, '-') && !HasChar(sep, ',')
    requires !HasChar(sep, ' ') || !HasChar(sep, 't')
    ensures !Contains(a + sep + b, "-") && !Contains(Lower(a + sep + b), " to ") && !Contains(a + sep + b, ",")
  {
    LacksAround(a, sep, b, '-');
    Absent(a + sep + b, "-");
    NoTo(a, sep, b);
    LacksAround(a, sep, b, ',');
    Absent(a + sep + b, ",");
  }

  /** `A,B` with time texts A and B. */
  lemma CommaSeparate(a: string, b: string)
    requires TimeText(a) && TimeText(b)
    ensures Separate(a + "," + b) == Some([a, b])
  {
    LacksAround(a, ",", b, '-');
    Absent(a + "," + b, "-");
    assert Lower(",") == ",";
    NoTo(a, ",", b);
    CleanLacks(a, ',');
    CleanLacks(b, ',');
    SplitAround(a, ",", b);
  }

  /** Two time texts around one space are two words. */
  lemma SpaceWords(a: string, b: string)
    requires TimeText(a) && TimeText(b)
    ensures Words(a + " " + b) == [a, b]
  {
    CleanSpaceFree(a);
    CleanSpaceFree(b);
    assert a + " " + b == a + (" " + b);
    WordsLead(a, " " + b);
    assert (" " + b)[1..] == b;
    WordsLead(b, []);
    assert b + [] == b;
  }

  /** `A B` with time texts A and B: exactly two words. */
  lemma SpaceSeparate(a: string, b: string)
    requires TimeText(a) && TimeText(b)
    ensures Separate(a + " " + b) == Some([a, b])
  {
    assert Lower(" ") == " ";
    NoEarlierSeparator(a, " ", b);
    SpaceWords(a, b);
  }

  /** A time text is one word. */
  lemma OneWord(s: string)
    requires TimeText(s)
    ensures Words(s) == [s]
  {
    CleanSpaceFree(s);
    WordsLead(s, []);
    assert s + [] == s;
  }

  /** `A..B` with time texts A and B that have no '.': no separator applies and ".." splits it. */
  lemma DotsSplit(a: string, b: string)
    requires TimeText(a) && TimeText(b) && !HasChar(a, '.') && !HasChar(b, '.')
    ensures Separate(a + ".." + b) == None
    ensures Contains(a + ".." + b, "..") && SplitOn(a + ".." + b, "..") == [a, b]
  {
    var line := a + ".." + b;
    assert Lower("..") == "..";
    NoEarlierSeparator(a, "..", b);
    assert Clean("..");
    CleanConcat(a, "..");
    CleanConcat(a + "..", b);
    OneWord(line);
    SplitAround(a, "..", b);
  }

  /**
   * Every line form the import documents: two time texts joined by '-',
   * " to ", ',', one space or "..", are read as that pair of texts.
   */
  lemma ImportSeparated(a: string, sep: string, b: string)
    requires TimeText(a) && TimeText(b)
    requires sep == "-" || sep == " to " || sep == "," || sep == " "
             || (sep == ".." && !HasChar(a, '.') && !HasChar(b, '.'))
    ensures ImportLine(a + sep + b) == ImportPair(a, b)
  {
    var line := a + sep + b;
    LineEdges(a, sep, b);
    if sep == "-" {
      CleanLacks(a, '-');
      CleanLacks(b, '-');
      DashSeparate(a, b);
      PairTokens(line, a, b);
    } else if sep == " to " {
      ToSeparate(a, b);
      PairTokens(line, a, b);
    } else if sep == "," {
      CommaSeparate(a, b);
      PairTokens(line, a, b);
    } else if sep == " " {
      SpaceSeparate(a, b);
      PairTokens(line, a, b);
    } else {
      DotsSplit(a, b);
      DotsTokens(line, a, b);
    }
  }

  // Reading the example texts.

  lemma WholeSeconds(d: string)
    requires d != [] && AllDigits(d)
    ensures ParseTimeToSeconds(d) == Ok(DigitsValue(d) as real)
  {
    SecondsWhole(d);
    ParseClean(d);
  }

  lemma Clock0000()
    ensures ParseTimeToSeconds("00:00") == Ok(0.0) && TimeText("00:00")
  {
    SecondsWhole("00");
    assert DigitsValue("00") == 0;
    assert "00:00" == "00" + ":" + "00";
    ParseMsText("00", "00", 0.0, 0.0);
    CleanMs("00", "00");
  }

  lemma Clock0515()
    ensures ParseTimeToSeconds("05:15") == Ok(315.0) && TimeText("05:15")
  {
    SecondsWhole("15");
    assert DigitsValue("05") == 5 && DigitsValue("15") == 15;
    assert "05:15" == "05" + ":" + "15";
    ParseMsText("05", "15", 15.0, 315.0);
    CleanMs("05", "15");
  }

  lemma Clock000()
    ensures ParseTimeToSeconds("0:00") == Ok(0.0) && TimeText("0:00")
  {
    SecondsWhole("00");
    assert DigitsValue("0") == 0 && DigitsValue("00") == 0;
    assert "0:00" == "0" + ":" + "00";
    ParseMsText("0", "00", 0.0, 0.0);
    CleanMs("0", "00");
  }

  lemma Clock515()
    ensures ParseTimeToSeconds("5:15") == Ok(315.0) && TimeText("5:15")
  {
    SecondsWhole("15");
    assert DigitsValue("5") == 5 && DigitsValue("15") == 15;
    assert "5:15" == "5" + ":" + "15";
    ParseMsText("5", "15", 15.0, 315.0);
    CleanMs("5", "15");
  }

  /** Two texts that parse to increasing times are accepted as that range. */
  lemma AcceptedPair(a: string, b: string, s: real, e: real)
    requires ParseTimeToSeconds(a) == Ok(s) && ParseTimeToSeconds(b) == Ok(e) && s < e
    ensures ImportPair(a, b) == Some(Segment(a, b, s, e))
  {
  }

  /** A documented line form of two time texts that parse to increasing times imports as that range. */
  lemma SeparatedRange(a: string, sep: string, b: string, s: real, e: real)
    requires TimeText(a) && TimeText(b)
    requires sep == "-" || sep == " to " || sep == "," || sep == " "
             || (sep == ".." && !HasChar(a, '.') && !HasChar(b, '.'))
    requires ParseTimeToSeconds(a) == Ok(s) && ParseTimeToSeconds(b) == Ok(e) && s < e
    ensures ImportLine(a + sep + b) == Some(Segment(a, b, s, e))
  {
    ImportSeparated(a, sep, b);
    AcceptedPair(a, b, s, e);
  }

  /** The line forms the import documents each read as the range 0 s to 315 s. */
  lemma ImportDashExample()
    ensures ImportLine("00:00-05:15") == Some(Segment("00:00", "05:15", 0.0, 315.0))
  {
    assert "00:00-05:15" == "00:00" + "-" + "05:15";
    Clock0000();
    Clock0515();
    SeparatedRange("00:00", "-", "05:15", 0.0, 315.0);
  }

  lemma ImportToExample()
    ensures ImportLine("0:00 to 5:15") == Some(Segment("0:00", "5:15", 0.0, 315.0))
  {
    assert "0:00 to 5:15" == "0:00" + " to " + "5:15";
    Clock000();
    Clock515();
    SeparatedRange("0:00", " to ", "5:15", 0.0, 315.0);
  }

  lemma ImportCommaExample()
    ensures ImportLine("0:00,5:15") == Some(Segment("0:00", "5:15", 0.0, 315.0))
  {
    assert "0:00,5:15" == "0:00" + "," + "5:15";
    Clock000();
    Clock515();
    SeparatedRange("0:00", ",", "5:15", 0.0, 315.0);
  }

  lemma ImportSpaceExample()
    ensures ImportLine("0:00 5:15") == Some(Segment("0:00", "5:15", 0.0, 315.0))
  {
    assert "0:00 5:15" == "0:00" + " " + "5:15";
    Clock000();
    Clock515();
    SeparatedRange("0:00", " ", "5:15", 0.0, 315.0);
  }

  /** `..` is tried only after the other separators; a text with a ':' but no '.' goes through it. */
  lemma ImportDotsExample()
    ensures ImportLine("0:00..5:15") == Some(Segment("0:00", "5:15", 0.0, 315.0))
  {
    assert "0:00..5:15" == "0:00" + ".." + "5:15";
    assert !HasChar("0:00", '.') && !HasChar("5:15", '.');
    Clock000();
    Clock515();
    SeparatedRange("0:00", "..", "5:15", 0.0, 315.0);
  }

  /** `10,2` is split at the comma, but its end is before its start, so the line is skipped. */
  lemma ImportBackwardsExample()
    ensures ImportLine("10,2") == None
  {
    WholeSeconds("10");
    WholeSeconds("2");
    assert Clean("10") && Clean("2");
    assert "10,2" == "10" + "," + "2";
    ImportSeparated("10", ",", "2");
  }

  /** Times with a decimal comma: "1,5" and "2,5" read as 1.5 s and 2.5 s. */
  lemma Comma15()
    ensures ParseTimeToSeconds("1,5") == Ok(1.5)
  {
    ParseDecimalComma("1", "5");
    assert "1,5" == "1" + "," + "5";
    assert FractionValue("5") == 0.5;
  }

  lemma Comma25()
    ensures ParseTimeToSeconds("2,5") == Ok(2.5)
  {
    ParseDecimalComma("2", "5");
    assert "2,5" == "2" + "," + "5";
    assert FractionValue("5") == 0.5;
  }

  /** Any stripped line with a dash is split at the dash before the other separators are tried. */
  lemma DashRange(a: string, b: string)
    requires !HasChar(a, '-') && !HasChar(b, '-')
    requires Strip(a + "-" + b) == a + "-" + b && !StartsWith(a + "-" + b, "#")
    requires Strip(a) == a && Strip(b) == b
    ensures ImportLine(a + "-" + b) == ImportPair(a, b)
  {
    DashLine(a, b);
  }

  /** The dash wins over the comma: `1,5-2,5` is read as 1.5 s to 2.5 s. */
  lemma DashBeforeCommaExample()
    ensures ImportLine("1,5-2,5") == Some(Segment("1,5", "2,5", 1.5, 2.5))
  {
    var line := "1,5-2,5";
    assert line == "1,5" + "-" + "2,5";
    assert !HasChar("1,5", '-') && !HasChar("2,5", '-');
    StripUnchanged(line);
    StripUnchanged("1,5");
    StripUnchanged("2,5");
    DashRange("1,5", "2,5");
    Comma15();
    Comma25();
    AcceptedPair("1,5", "2,5", 1.5, 2.5);
  }

  // ---------------------------------------------------------------------
  // Rows and the segments read back from them
  // ---------------------------------------------------------------------

  /** The row the timeline program writes for a range from `start` to `end` seconds. */
  function HmsRow(start: real, end: real): Row {
    Row(SecondsToHms(start, true), SecondsToHms(end, true), Pending)
  }

  /**
   * The row the timeline program writes with `seconds_to_hms` as written; it
   * is `HmsRow` unless a millisecond field carries (`AsWrittenRowIsHmsRow`).
   */
  function AsWrittenRow(start: real, end: real): Row {
    Row(SecondsToHmsAsWritten(start, true), SecondsToHmsAsWritten(end, true), Pending)
  }

  lemma AsWrittenRowIsHmsRow(start: real, end: real)
    requires MsField(start) < 1000 && MsField(end) < 1000
    ensures AsWrittenRow(start, end) == HmsRow(start, end)
    ensures ParseRow(AsWrittenRow(start, end)) ==
      Ok(Segment(SecondsToHms(start, true), SecondsToHms(end, true), RoundToMs(start), RoundToMs(end)))
  {
    SecondsToHmsAgreement(start, true);
    SecondsToHmsAgreement(end, true);
    SecondsToHmsRoundTrip(start);
    SecondsToHmsRoundTrip(end);
  }

  /** The row inserted for an accepted range. */
  function RowOf(hmsTexts: bool, g: Segment): (row: Row)
    ensures row.status == Pending
    ensures !hmsTexts ==> row.start == g.startText && row.end == g.endText
  {
    if hmsTexts then HmsRow(g.startSec, g.endSec) else Row(g.startText, g.endText, Pending)
  }

  /** The rows inserted for accepted ranges, in order. */
  function RowsOf(hmsTexts: bool, gs: seq<Segment>): (rows: seq<Row>)
    ensures |rows| == |gs|
  {
    if gs == [] then [] else RowsOf(hmsTexts, gs[..|gs| - 1]) + [RowOf(hmsTexts, gs[|gs| - 1])]
  }

  lemma RowsOfSnoc(hmsTexts: bool, gs: seq<Segment>, g: Segment)
    ensures RowsOf(hmsTexts, gs + [g]) == RowsOf(hmsTexts, gs) + [RowOf(hmsTexts, g)]
  {
    assert (gs + [g])[..|gs|] == gs;
  }

  lemma {:induction false} RowsOfAt(hmsTexts: bool, gs: seq<Segment>, k: nat)
    requires k < |gs|
    ensures RowsOf(hmsTexts, gs)[k] == RowOf(hmsTexts, gs[k])
  {
    var init := gs[..|gs| - 1];
    if k < |init| {
      RowsOfAt(hmsTexts, init, k);
      assert gs[k] == init[k];
    }
  }

  /** `_collect_segments` for one row: the row's texts and their parsed times. */
  function ParseRow(row: Row): (r: Result<Segment, TimeError>)
    ensures r.Ok? ==> r.value.startText == row.start && r.value.endText == row.end && Parsed(r.value)
    ensures r.Err? <==> ParseTimeToSeconds(row.start).Err? || ParseTimeToSeconds(row.end).Err?
  {
    match ParseTimeToSeconds(row.start)
    case Err(why) => Err(why)
    case Ok(s) =>
      match ParseTimeToSeconds(row.end)
      case Err(why) => Err(why)
      case Ok(e) => Ok(Segment(row.start, row.end, s, e))
  }

  /** Every row's texts parse. */
  ghost predicate RowsParse(rows: seq<Row>) {
    forall k | 0 <= k < |rows| :: ParseRow(rows[k]).Ok?
  }

  /** The first error among a sequence of results, or all their values. */
  function Firsts(rs: seq<Result<Segment, TimeError>>): Result<seq<Segment>, TimeError> {
    if rs == [] then Ok([])
    else
      match Firsts(rs[..|rs| - 1])
      case Err(why) => Err(why)
      case Ok(gs) =>
        match rs[|rs| - 1]
        case Err(why) => Err(why)
        case Ok(g) => Ok(gs + [g])
  }

  lemma FirstsSnoc(rs: seq<Result<Segment, TimeError>>, r: Result<Segment, TimeError>)
    ensures Firsts(rs + [r]) == match Firsts(rs)
      case Err(why) => Err(why)
      case Ok(gs) => (match r case Err(why) => Err(why) case Ok(g) => Ok(gs + [g]))
  {
    assert (rs + [r])[..|rs|] == rs;
  }

  /** Results succeed together exactly when each does, and then keep their order. */
  lemma {:induction false} FirstsOk(rs: seq<Result<Segment, TimeError>>)
    ensures Firsts(rs).Ok? <==> forall k | 0 <= k < |rs| :: rs[k].Ok?
    ensures Firsts(rs).Ok? ==> |Firsts(rs).value| == |rs|
    ensures Firsts(rs).Ok? ==> forall k | 0 <= k < |rs| :: Firsts(rs).value[k] == rs[k].value
  {
    if rs != [] {
      var init := rs[..|rs| - 1];
      FirstsOk(init);
      assert forall k | 0 <= k < |init| :: rs[k] == init[k];
    }
  }

  /** Once an error is met, later results do not matter: the earliest error wins. */
  lemma {:induction false} FirstsErr(a: seq<Result<Segment, TimeError>>, b: seq<Result<Segment, TimeError>>)
    requires Firsts(a).Err?
    ensures Firsts(a + b) == Firsts(a)
  {
    if b == [] {
      assert a + b == a;
    } else {
      var init, last := b[..|b| - 1], b[|b| - 1];
      Snoc(a, b);
      FirstsErr(a, init);
      FirstsSnoc(a + init, last);
    }
  }

  lemma FirstsConcatOk(a: seq<Result<Segment, TimeError>>, b: seq<Result<Segment, TimeError>>)
    requires Firsts(a).Ok? && Firsts(b).Ok?
    ensures Firsts(a + b).Ok?
  {
    FirstsOk(a);
    FirstsOk(b);
    assert forall k | 0 <= k < |a + b| :: (a + b)[k] == if k < |a| then a[k] else b[k - |a|];
    FirstsOk(a + b);
  }

  lemma FirstsDelete(rs: seq<Result<Segment, TimeError>>, k: nat)
    requires Firsts(rs).Ok? && k < |rs|
    ensures Firsts(rs[..k] + rs[k + 1..]).Ok?
  {
    var rest := rs[..k] + rs[k + 1..];
    FirstsOk(rs);
    assert forall j | 0 <= j < |rest| :: rest[j] == rs[if j < k then j else j + 1];
    FirstsOk(rest);
  }

  /** Each row parsed, in table order. */
  function Parses(rows: seq<Row>): (rs: seq<Result<Segment, TimeError>>)
    ensures |rs| == |rows|
  {
    Map(ParseRow, rows)
  }

  /** `_collect_segments`: the rows' segments in table order; the first row that does not parse raises. */
  function Collect(rows: seq<Row>): Result<seq<Segment>, TimeError> {
    Firsts(Parses(rows))
  }

  /** Collecting succeeds exactly when every row parses, and then yields each row's segment in order. */
  lemma CollectRows(rows: seq<Row>)
    ensures Collect(rows).Ok? <==> RowsParse(rows)
    ensures Collect(rows).Ok? ==> |Collect(rows).value| == |rows|
    ensures Collect(rows).Ok? ==> forall k | 0 <= k < |rows| :: Collect(rows).value[k] == ParseRow(rows[k]).value
  {
    var ps := Parses(rows);
    forall k | 0 <= k < |rows|
      ensures ps[k] == ParseRow(rows[k])
    {
      MapAt(ParseRow, rows, k);
    }
    FirstsOk(ps);
  }

  /** A row that parses extends the cut list of rows that do. */
  lemma CollectSnoc(rows: seq<Row>, r: Row)
    requires Collect(rows).Ok? && ParseRow(r).Ok?
    ensures Collect(rows + [r]) == Ok(Collect(rows).value + [ParseRow(r).value])
  {
    MapSnoc(ParseRow, rows, r);
    FirstsSnoc(Parses(rows), ParseRow(r));
  }

  /** Rows that parse, followed by rows that parse. */
  lemma CollectConcat(a: seq<Row>, b: seq<Row>)
    requires Collect(a).Ok? && Collect(b).Ok?
    ensures Collect(a + b).Ok?
  {
    MapConcat(ParseRow, a, b);
    FirstsConcatOk(Parses(a), Parses(b));
  }

  /** The rows written for parsed ranges all parse. */
  lemma WrittenParse(hmsTexts: bool, gs: seq<Segment>)
    requires forall k | 0 <= k < |gs| :: Parsed(gs[k])
    ensures Collect(RowsOf(hmsTexts, gs)).Ok?
  {
    var rows := RowsOf(hmsTexts, gs);
    forall k | 0 <= k < |rows|
      ensures ParseRow(rows[k]).Ok?
    {
      RowsOfAt(hmsTexts, gs, k);
      RowOfParses(hmsTexts, gs[k]);
    }
    CollectRows(rows);
  }

  /** Importing into a table whose rows parse keeps every row parsing. */
  lemma ImportKeepsParsing(rows: seq<Row>, hmsTexts: bool, lines: seq<string>)
    requires Collect(rows).Ok?
    ensures Collect(rows + RowsOf(hmsTexts, ImportSegments(lines))).Ok?
  {
    ImportedRanges(lines);
    WrittenParse(hmsTexts, ImportSegments(lines));
    CollectConcat(rows, RowsOf(hmsTexts, ImportSegments(lines)));
  }

  /** Removing a row keeps the others parsing. */
  lemma CollectDelete(rows: seq<Row>, k: nat)
    requires Collect(rows).Ok? && k < |rows|
    ensures Collect(rows[..k] + rows[k + 1..]).Ok?
  {
    MapDelete(ParseRow, rows, k);
    FirstsDelete(Parses(rows), k);
  }

  /** A row's segment depends on its texts only. */
  lemma ParseRowTexts(a: Row, b: Row)
    requires a.start == b.start && a.end == b.end
    ensures ParseRow(a) == ParseRow(b)
  {
  }

  /** Rows with the same texts give the same segments, whatever their statuses. */
  lemma CollectIgnoresStatus(a: seq<Row>, b: seq<Row>)
    requires |a| == |b| && forall k | 0 <= k < |a| :: a[k].start == b[k].start && a[k].end == b[k].end
    ensures Collect(a) == Collect(b)
  {
    forall k | 0 <= k < |a|
      ensures Parses(a)[k] == Parses(b)[k]
    {
      MapAt(ParseRow, a, k);
      MapAt(ParseRow, b, k);
      ParseRowTexts(a[k], b[k]);
    }
    assert Parses(a) == Parses(b);
  }

  /** The segment read back from the row written for g. */
  function Reread(hmsTexts: bool, g: Segment): Segment {
    if hmsTexts then
      Segment(SecondsToHms(g.startSec, true), SecondsToHms(g.endSec, true), RoundToMs(g.startSec), RoundToMs(g.endSec))
    else g
  }

  /**
   * A row written for a parsed range reads back: as typed in the original
   * program, rounded to the millisecond in the timeline program.
   */
  lemma RowOfParses(hmsTexts: bool, g: Segment)
    requires Parsed(g)
    ensures ParseRow(RowOf(hmsTexts, g)) == Ok(Reread(hmsTexts, g))
  {
    SecondsToHmsRoundTrip(g.startSec);
    SecondsToHmsRoundTrip(g.endSec);
  }

  /**
   * In the original program the cut list read back from rows written for
   * parsed ranges is exactly those ranges, in order.
   */
  lemma CollectWritten(gs: seq<Segment>)
    requires forall k | 0 <= k < |gs| :: Parsed(gs[k])
    ensures Collect(RowsOf(false, gs)) == Ok(gs)
  {
    var rows := RowsOf(false, gs);
    var ps := Parses(rows);
    forall k | 0 <= k < |gs|
      ensures ps[k] == Ok(gs[k])
    {
      RowsOfAt(false, gs, k);
      MapAt(ParseRow, rows, k);
      RowOfParses(false, gs[k]);
    }
    FirstsOk(ps);
    assert Firsts(ps).value == gs;
  }

  /** In the original program importing a file and collecting gives back exactly the imported ranges. */
  lemma ImportThenCollect(lines: seq<string>)
    ensures Collect(RowsOf(false, ImportSegments(lines))) == Ok(ImportSegments(lines))
  {
    ImportedRanges(lines);
    CollectWritten(ImportSegments(lines));
  }

  // ---------------------------------------------------------------------
  // Status updates and deletion
  // ---------------------------------------------------------------------

  /** `_set_row_status`: the status of row `index`, if there is such a row; nothing else changes. */
  function WithStatus(rows: seq<Row>, index: int, status: string): (r: seq<Row>)
    ensures |r| == |rows|
    ensures forall k | 0 <= k < |rows| ::
      r[k].start == rows[k].start && r[k].end == rows[k].end
      && r[k].status == (if k == index then status else rows[k].status)
  {
    if 0 <= index < |rows| then rows[index := rows[index].(status := status)] else rows
  }

  /** Status updates never change the cut list. */
  lemma StatusKeepsSegments(rows: seq<Row>, index: int, status: string)
    ensures Collect(WithStatus(rows, index, status)) == Collect(rows)
  {
    CollectIgnoresStatus(WithStatus(rows, index, status), rows);
  }

  function Abs(x: real): real {
    if x < 0.0 then -x else x
  }

  /** A parsed row whose times are both within half a second of the selection's. */
  predicate Near(r: Result<Segment, TimeError>, start: real, end: real) {
    r.Ok? && Abs(r.value.startSec - start) < 0.5 && Abs(r.value.endSec - end) < 0.5
  }

  /** A row that parses and whose times are both within half a second of the selection's. */
  predicate Matches(row: Row, start: real, end: real) {
    Near(ParseRow(row), start, end)
  }

  /** The index of the first near result, or the number of results when none is near. */
  function FirstNear(rs: seq<Result<Segment, TimeError>>, start: real, end: real): (k: nat)
    ensures k <= |rs|
  {
    if rs == [] then 0
    else if Near(rs[0], start, end) then 0
    else 1 + FirstNear(rs[1..], start, end)
  }

  /** No result before the first near one is near, and that one is. */
  lemma {:induction false} FirstNearSpec(rs: seq<Result<Segment, TimeError>>, start: real, end: real)
    ensures var k := FirstNear(rs, start, end);
      (k < |rs| ==> Near(rs[k], start, end)) && forall j | 0 <= j < k :: !Near(rs[j], start, end)
  {
    if rs != [] && !Near(rs[0], start, end) {
      FirstNearSpec(rs[1..], start, end);
      assert forall j | 1 <= j < |rs| :: rs[j] == rs[1..][j - 1];
    }
  }

  /** The first near result is the position before which none is near and at which one is. */
  lemma {:induction false} FirstNearIs(rs: seq<Result<Segment, TimeError>>, start: real, end: real, k: nat)
    requires k <= |rs| && (k < |rs| ==> Near(rs[k], start, end))
    ensures FirstNear(rs, start, end) == k <==> forall j | 0 <= j < k :: !Near(rs[j], start, end)
  {
    if rs != [] && k > 0 {
      FirstNearIs(rs[1..], start, end, k - 1);
      assert forall j | 1 <= j < |rs| :: rs[j] == rs[1..][j - 1];
    }
  }

  /** `_timeline_delete_selection`: the table without its first matching row. */
  function DeleteMatch(rows: seq<Row>, start: real, end: real): seq<Row> {
    var k := FirstNear(Parses(rows), start, end);
    if k < |rows| then rows[..k] + rows[k + 1..] else rows
  }

  /**
   * The row the timeline program writes for a selection is the one deleting
   * that selection removes, unless an earlier row matches as well.
   */
  lemma DeleteWrittenRow(rows: seq<Row>, start: real, end: real)
    requires 0.0 <= start && 0.0 <= end
    requires forall k | 0 <= k < |rows| :: !Matches(rows[k], start, end)
    ensures DeleteMatch(rows + [HmsRow(start, end)], start, end) == rows
  {
    WrittenRowMatches(start, end);
    DeleteLast(rows, HmsRow(start, end), start, end);
  }

  /** The row written for a selection reads back within half a second of it. */
  lemma WrittenRowMatches(start: real, end: real)
    requires 0.0 <= start && 0.0 <= end
    ensures Matches(HmsRow(start, end), start, end)
  {
    WrittenNear(start);
    WrittenNear(end);
    MatchesOf(HmsRow(start, end), start, end, RoundToMs(start), RoundToMs(end));
  }

  lemma MatchesOf(row: Row, start: real, end: real, s: real, e: real)
    requires ParseTimeToSeconds(row.start) == Ok(s) && ParseTimeToSeconds(row.end) == Ok(e)
    requires Abs(s - start) < 0.5 && Abs(e - end) < 0.5
    ensures Matches(row, start, end)
  {
  }

  lemma WrittenNear(x: real)
    requires 0.0 <= x
    ensures ParseTimeToSeconds(SecondsToHms(x, true)) == Ok(RoundToMs(x)) && Abs(RoundToMs(x) - x) < 0.5
  {
    SecondsToHmsRoundTrip(x);
  }

  /**
   * The same for the row the program writes, when neither millisecond field
   * carries.
   */
  lemma DeleteAsWrittenRow(rows: seq<Row>, start: real, end: real)
    requires 0.0 <= start && 0.0 <= end
    requires MsField(start) < 1000 && MsField(end) < 1000
    requires forall k | 0 <= k < |rows| :: !Matches(rows[k], start, end)
    ensures DeleteMatch(rows + [AsWrittenRow(start, end)], start, end) == rows
  {
    AsWrittenRowIsHmsRow(start, end);
    DeleteWrittenRow(rows, start, end);
  }

  /**
   * A selection from 1.9996 s to 5 s: the program writes `00:00:01.1000`,
   * which reads back as 1.1 s, so deleting the selection keeps its row.
   */
  lemma CarriedRowKept()
    ensures DeleteMatch([AsWrittenRow(1.9996, 5.0)], 1.9996, 5.0) == [AsWrittenRow(1.9996, 5.0)]
  {
    var row := AsWrittenRow(1.9996, 5.0);
    SecondsToHmsCarryLost();
    SecondsToHmsAsWrittenExact(5.0, 5000);
    assert ParseRow(row).value.startSec == 1.1;
    assert !Near(ParseRow(row), 1.9996, 5.0);
    assert Parses([row]) == [ParseRow(row)];
    assert FirstNear([ParseRow(row)], 1.9996, 5.0) == 1;
  }

  /** A matching row after rows that do not match is the one deleted. */
  lemma DeleteLast(rows: seq<Row>, row: Row, start: real, end: real)
    requires forall k | 0 <= k < |rows| :: !Matches(rows[k], start, end)
    requires Matches(row, start, end)
    ensures DeleteMatch(rows + [row], start, end) == rows
  {
    var all := rows + [row];
    var ps := Parses(all);
    forall k | 0 <= k <= |rows|
      ensures ps[k] == ParseRow(if k < |rows| then rows[k] else row)
    {
      MapAt(ParseRow, all, k);
    }
    FirstNearIs(ps, start, end, |rows|);
    assert all[..|rows|] == rows;
  }

  /** Deletion removes at most one row, keeps the others in order, and only a matching one. */
  lemma DeleteMatchKeeps(rows: seq<Row>, start: real, end: real)
    ensures var r := DeleteMatch(rows, start, end);
      (r == rows && forall k | 0 <= k < |rows| :: !Matches(rows[k], start, end))
      || exists k | 0 <= k < |rows| :: Matches(rows[k], start, end) && r == rows[..k] + rows[k + 1..]
  {
    var ps := Parses(rows);
    FirstNearSpec(ps, start, end);
    forall k | 0 <= k < |rows|
      ensures ps[k] == ParseRow(rows[k])
    {
      MapAt(ParseRow, rows, k);
    }
    var k := FirstNear(ps, start, end);
    if k < |rows| {
      assert Matches(rows[k], start, end);
    }
  }

  /** Deleting the row of a selection keeps the other rows parsing. */
  lemma DeleteKeepsParsing(rows: seq<Row>, start: real, end: real)
    requires Collect(rows).Ok?
    ensures Collect(DeleteMatch(rows, start, end)).Ok?
  {
    var k := FirstNear(Parses(rows), start, end);
    if k < |rows| {
      assert DeleteMatch(rows, start, end) == rows[..k] + rows[k + 1..];
      CollectDelete(rows, k);
    } else {
      assert DeleteMatch(rows, start, end) == rows;
    }
  }

  // ---------------------------------------------------------------------
  // The table
  // ---------------------------------------------------------------------

  /** The times of row i, parsed. */
  method ParseAt(rows: seq<Row>, i: nat) returns (r: Result<Segment, TimeError>)
    requires i < |rows|
    ensures r == Parses(rows)[i]
  {
    r := ParseRow(rows[i]);
    MapAt(ParseRow, rows, i);
  }

  class Table {
    var rows: seq<Row>
    /** The timeline program writes `seconds_to_hms` texts; the original program the texts as typed. */
    const hmsTexts: bool

    /** Every row's times parse, so collecting the cut list cannot raise. */
    ghost predicate Valid()
      reads this
    {
      Collect(rows).Ok?
    }

    constructor(hmsTexts: bool)
      ensures rows == [] && this.hmsTexts == hmsTexts && Valid()
    {
      this.hmsTexts := hmsTexts;
      rows := [];
    }

    /** `_add_range`: the stripped entry texts, appended as a pending row when accepted. */
    method AddRange(startText: string, endText: string) returns (r: Result<Segment, RangeError>)
      modifies this
      ensures r == CheckRange(Strip(startText), Strip(endText))
      ensures rows == old(rows) + if r.Ok? then [RowOf(hmsTexts, r.value)] else []
      ensures old(Valid()) ==> Valid()
    {
      r := CheckRange(Strip(startText), Strip(endText));
      if r.Err? {
        return;
      }
      RowOfParses(hmsTexts, r.value);
      if Valid() {
        CollectSnoc(rows, RowOf(hmsTexts, r.value));
      }
      rows := rows + [RowOf(hmsTexts, r.value)];
    }

    /** `_import_from_text` over the file's lines; `added` is the count shown to the user. */
    method Import(lines: seq<string>) returns (added: nat)
      modifies this
      ensures added == |ImportSegments(lines)|
      ensures rows == old(rows) + RowsOf(hmsTexts, ImportSegments(lines))
      ensures old(Valid()) ==> Valid()
    {
      ghost var os, before := Map(ImportLine, lines), rows;
      added := 0;
      var i := 0;
      while i < |lines|
        invariant 0 <= i <= |lines|
        invariant rows == before + RowsOf(hmsTexts, Somes(os[..i]))
        invariant added == |rows| - |before|
      {
        var outcome := ImportLine(lines[i]);
        MapAt(ImportLine, lines, i);
        ghost var found := Somes(os[..i]);
        TakeSnoc(os, i);
        SomesSnoc(os[..i], outcome);
        if outcome.None? {
          assert found + [] == found;
        } else {
          RowOfParses(hmsTexts, outcome.value);
          RowsOfSnoc(hmsTexts, found, outcome.value);
          Assoc(before, RowsOf(hmsTexts, found), [RowOf(hmsTexts, outcome.value)]);
          rows := rows + [RowOf(hmsTexts, outcome.value)];
          added := added + 1;
        }
        i := i + 1;
      }
      assert os[..i] == os;
      if old(Valid()) {
        ImportKeepsParsing(before, hmsTexts, lines);
      }
    }

    /** `_collect_segments`: raises on the first row whose times do not parse. */
    method CollectSegments() returns (r: Result<seq<Segment>, TimeError>)
      ensures r == Collect(rows)
    {
      ghost var ps := Parses(rows);
      var segs := [];
      var i := 0;
      while i < |rows|
        invariant 0 <= i <= |rows|
        invariant Firsts(ps[..i]) == Ok(segs)
      {
        var parsed := ParseRow(rows[i]);
        MapAt(ParseRow, rows, i);
        TakeSnoc(ps, i);
        FirstsSnoc(ps[..i], parsed);
        match parsed {
          case Err(why) =>
            TakeDrop(ps, i + 1);
            FirstsErr(ps[..i + 1], ps[i + 1..]);
            return Err(why);
          case Ok(g) =>
            segs := segs + [g];
        }
        i := i + 1;
      }
      assert ps[..i] == ps;
      r := Ok(segs);
    }

    /** `_set_row_status`. */
    method SetRowStatus(index: int, status: string)
      modifies this
      ensures rows == WithStatus(old(rows), index, status)
      ensures old(Valid()) ==> Valid()
    {
      StatusKeepsSegments(rows, index, status);
      if 0 <= index < |rows| {
        rows := rows[index := rows[index].(status := status)];
      }
    }

    /** `_timeline_delete_selection`: rows that do not parse are passed over. */
    method DeleteSelection(start: real, end: real)
      modifies this
      ensures rows == DeleteMatch(old(rows), start, end)
    {
      var all := rows;
      ghost var ps := Parses(all);
      var i := 0;
      while i < |all|
        invariant 0 <= i <= |all| && rows == all
        invariant forall j | 0 <= j < i :: !Near(ps[j], start, end)
      {
        var parsed := ParseAt(all, i);
        if Near(parsed, start, end) {
          break;
        }
        i := i + 1;
      }
      FirstNearIs(ps, start, end, i);
      if i < |all| {
        rows := all[..i] + all[i + 1..];
      }
    }
  }

  /**
   * The timeline program's `_add_range`: the accepted range also becomes a
   * timeline interval, with its exact times, when a video is loaded.
   */
  method AddRangeWithTimeline(table: Table, line: Timeline.Timeline, startText: string, endText: string)
    returns (r: Result<Segment, RangeError>)
    requires line.Valid()
    modifies table, line
    ensures r == CheckRange(Strip(startText), Strip(endText))
    ensures table.rows == old(table.rows) + if r.Ok? then [RowOf(table.hmsTexts, r.value)] else []
    ensures old(table.Valid()) ==> table.Valid()
    ensures line.Valid()
    ensures line.Intervals() == old(line.Intervals())
      + if r.Ok? && old(line.duration) > 0.0 then [(r.value.startSec, r.value.endSec)] else []
    ensures line.duration == old(line.duration) && line.width == old(line.width)
    ensures line.selected == old(line.selected) && line.playhead == old(line.playhead)
  {
    r := table.AddRange(startText, endText);
    if r.Ok? && line.duration > 0.0 {
      line.AddSegment(r.value.startSec, r.value.endSec);
    }
  }
}
