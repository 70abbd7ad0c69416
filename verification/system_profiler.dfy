/** The macOS branch of get_connected_devices: a line-by-line parse of the
    text `system_profiler SPUSBDataType` prints. The command itself is not
    run here; its output, already split into lines, is the input. */
module SystemProfiler {
  import opened Devices
  import opened PyText

  /** The `current` dictionary of the parse loop, less its serial. A field
      that is None is a key that has never been set. The loop never clears
      this dictionary, so a value stays until a later line overwrites it. */
  datatype Fields = Fields(name: Option<string>, vendorId: Option<string>, productId: Option<string>)

  /** One dictionary appended to the device list: a copy of `current` with
      the serial that was just read. */
  datatype Parsed = Parsed(fields: Fields, serial: Serial)

  /** `current` as the loop starts it: an empty dictionary. */
  const NoFields: Fields := Fields(None, None, None)

  /** The placeholder the source writes when a Vendor ID line is short. */
  const Unknown: string := "Unknown"

  const ProductPrefix: string := "Product ID:"
  const VendorPrefix: string := "Vendor ID:"
  const SerialPrefix: string := "Serial Number:"

  /** Every key a device dictionary is later read with is present. */
  predicate Complete(f: Fields)
  {
    f.name.Some? && f.vendorId.Some? && f.productId.Some?
  }

  /** How the name is read off a Vendor ID line, whose words are
      "Vendor", "ID:", the vendor id, then the vendor name in parentheses. */
  datatype Naming =
    | LastWord  // as written: the last word, stripped of parentheses
    | AllWords  // corrected: every word after the vendor id, stripped of parentheses

  function VendorName(naming: Naming, parts: seq<string>): string
    requires |parts| > 3
  {
    match naming
    case LastWord => StripParens(parts[|parts| - 1])
    case AllWords => StripParens(Join(parts[3..], ' '))
  }

  /** A prefix that ends in a colon puts a colon in the line. */
  lemma PrefixColon(p: string, l: string)
    requires |p| > 0 && p[|p| - 1] == ':' && StartsWith(l, p)
    ensures ':' in l
  {
    StartsWithIsPrefix(l, p);
    assert l[|p| - 1] == ':';
  }

  /** Python `line.split(":")[1]`: the text after the first colon, up to the
      second colon or the end of the line. */
  function SecondField(line: string): (f: string)
    requires ':' in line
    ensures ':' !in f
    ensures IndexOf(line, ':') < |line|
    ensures f <= line[IndexOf(line, ':') + 1..]
    ensures var end := IndexOf(line, ':') + 1 + |f|;
            end == |line| || line[end] == ':'
  {
    var t := line[IndexOf(line, ':') + 1..];
    t[..IndexOf(t, ':')]
  }

  /** `SecondField` is the second piece `split(":")` yields. */
  lemma SecondFieldIsSplit(line: string)
    requires ':' in line
    ensures |SplitOn(line, ':')| >= 2
    ensures SecondField(line) == SplitOn(line, ':')[1]
  {
    var k := IndexOf(line, ':');
    var t := line[k + 1..];
    var j := IndexOf(t, ':');
    assert SplitOn(line, ':') == [line[..k]] + SplitOn(t, ':');
    if j == |t| {
      assert t[..j] == t;
      assert SplitOn(t, ':') == [t];
    } else {
      assert SplitOn(t, ':') == [t[..j]] + SplitOn(t[j + 1..], ':');
    }
  }

  /** The serial a line announces: `Some(value)` for a line that starts with
      "Serial Number:" once stripped, whatever the value; None for any other
      line. */
  function SerialOf(line: string): Option<Serial>
  {
    var l := Strip(line);
    if StartsWith(l, SerialPrefix) then
      PrefixColon(SerialPrefix, l);
      Some(Strip(SecondField(l)))
    else None
  }

  /** One pass of the loop body over `line`: the new `current`, and the
      dictionary it appended, if any. A Product ID line sets product_id to the
      second `split(":")` piece, stripped and without "0x"; a Vendor ID line
      sets vendor_id to the third word and the name from the words after it,
      or "Unknown" when the line is too short; any other line leaves
      `current` as it is. */
  function ParseLine(naming: Naming, cur: Fields, line: string): (r: (Fields, Option<Parsed>))
    ensures r.1.Some? <==> SerialOf(line).Some? && SerialOf(line).value != ""
    ensures r.1.Some? ==> r.1.value == Parsed(cur, SerialOf(line).value)
    ensures !StartsWith(Strip(line), ProductPrefix) && !StartsWith(Strip(line), VendorPrefix) ==> r.0 == cur
    ensures StartsWith(Strip(line), ProductPrefix) ==>
              && |SplitOn(Strip(line), ':')| >= 2
              && r.0 == cur.(productId := Some(DeleteAll(Strip(SplitOn(Strip(line), ':')[1]), "0x")))
    ensures StartsWith(Strip(line), VendorPrefix) ==>
              var parts := Words(Strip(line));
              r.0 == cur.(vendorId := Some(if |parts| > 2 then parts[2] else Unknown),
                          name := Some(if |parts| > 3 then VendorName(naming, parts) else Unknown))
    ensures cur.name.Some? ==> r.0.name.Some?
    ensures cur.vendorId.Some? ==> r.0.vendorId.Some?
    ensures cur.productId.Some? ==> r.0.productId.Some?
  {
    var l := Strip(line);
    if StartsWith(l, ProductPrefix) then
      PrefixColon(ProductPrefix, l);
      SecondFieldIsSplit(l);
      assert !(StartsWith(l, SerialPrefix));
      assert !(StartsWith(l, VendorPrefix));
      (cur.(productId := Some(DeleteAll(Strip(SecondField(l)), "0x"))), None)
    else if StartsWith(l, VendorPrefix) then
      assert !(StartsWith(l, SerialPrefix));
      var parts := Words(l);
      var vendorId := if |parts| > 2 then parts[2] else Unknown;
      var name := if |parts| > 3 then VendorName(naming, parts) else Unknown;
      (cur.(vendorId := Some(vendorId), name := Some(name)), None)
    else if StartsWith(l, SerialPrefix) then
      PrefixColon(SerialPrefix, l);
      var serial := Strip(SecondField(l));
      (cur, if serial != "" then Some(Parsed(cur, serial)) else None)
    else
      (cur, None)
  }

  /** The non-empty serials the lines announce, in order: the serial column
      the parser must produce, ignoring every other field. */
  function SerialValues(lines: seq<string>): seq<Serial>
  {
    if |lines| == 0 then []
    else
      var s := SerialOf(lines[0]);
      (if s.Some? && s.value != "" then [s.value] else []) + SerialValues(lines[1..])
  }

  /** How many lines start with "Serial Number:" once stripped. */
  function SerialLineCount(lines: seq<string>): (n: nat)
    ensures n <= |lines|
  {
    if |lines| == 0 then 0
    else (if SerialOf(lines[0]).Some? then 1 else 0) + SerialLineCount(lines[1..])
  }

  /** The serial of each parsed device, in order. */
  function SerialColumn(devs: seq<Parsed>): seq<Serial>
  {
    if |devs| == 0 then [] else [devs[0].serial] + SerialColumn(devs[1..])
  }

  /** The parse loop from a given `current` onwards. */
  function ParseFrom(naming: Naming, cur: Fields, lines: seq<string>): (devs: seq<Parsed>)
    ensures forall i :: 0 <= i < |devs| ==> devs[i].serial != ""
    ensures |devs| <= SerialLineCount(lines)
    ensures Complete(cur) ==> forall i :: 0 <= i < |devs| ==> Complete(devs[i].fields)
    decreases |lines|
  {
    if |lines| == 0 then []
    else
      var step := ParseLine(naming, cur, lines[0]);
      var rest := ParseFrom(naming, step.0, lines[1..]);
      EmitFacts(cur, step.0, step.1, rest);
      (if step.1.Some? then [step.1.value] else []) + rest
  }

  /** The device a line emits, if any, in front of the devices of the
      remaining lines. */
  lemma EmitFacts(cur: Fields, next: Fields, emitted: Option<Parsed>, rest: seq<Parsed>)
    requires emitted.Some? ==> emitted.value.serial != "" && emitted.value.fields == cur
    requires forall i :: 0 <= i < |rest| ==> rest[i].serial != ""
    requires Complete(next) ==> forall i :: 0 <= i < |rest| ==> Complete(rest[i].fields)
    requires Complete(cur) ==> Complete(next)
    ensures var devs := (if emitted.Some? then [emitted.value] else []) + rest;
            && |devs| == |rest| + (if emitted.Some? then 1 else 0)
            && (forall i :: 0 <= i < |devs| ==> devs[i].serial != "")
            && (Complete(cur) ==> forall i :: 0 <= i < |devs| ==> Complete(devs[i].fields))
  {
    var devs := (if emitted.Some? then [emitted.value] else []) + rest;
    assert emitted.Some? ==> devs[1..] == rest;
    assert emitted.None? ==> devs == rest;
  }

  /** The devices are exactly the non-empty serial lines, in order: the
      serial column of the parse is the list of serial values. */
  lemma {:induction false} ParseFromSerials(naming: Naming, cur: Fields, lines: seq<string>)
    ensures SerialColumn(ParseFrom(naming, cur, lines)) == SerialValues(lines)
    decreases |lines|
  {
    if |lines| > 0 {
      var step := ParseLine(naming, cur, lines[0]);
      var rest := ParseFrom(naming, step.0, lines[1..]);
      ParseFromSerials(naming, step.0, lines[1..]);
      var devs := ParseFrom(naming, cur, lines);
      if step.1.Some? {
        assert devs == [step.1.value] + rest;
        assert devs[1..] == rest;
        assert SerialColumn(devs) == [step.1.value.serial] + SerialColumn(rest);
      } else {
        assert devs == rest;
      }
    }
  }

  /** The Darwin branch as written: the loop starts from an empty `current`
      and keeps the last word of the vendor name. */
  function Parse(lines: seq<string>): seq<Parsed>
  {
    ParseFrom(LastWord, NoFields, lines)
  }

  /** Fields are carried over: a serial line appends a device carrying the
      fields `current` holds, and hands the same `current` on to the next
      line, so two serial lines in a row give two devices with the same name,
      vendor and product. */
  lemma SerialLineKeepsCurrent(naming: Naming, cur: Fields, line: string, rest: seq<string>)
    ensures SerialOf(line).Some? && SerialOf(line).value != "" ==>
              ParseFrom(naming, cur, [line] + rest) == [Parsed(cur, SerialOf(line).value)] + ParseFrom(naming, cur, rest)
  {
    if SerialOf(line).Some? {
      assert !StartsWith(Strip(line), ProductPrefix) && !StartsWith(Strip(line), VendorPrefix);
    }
  }

  /** A serial line that comes before any Product ID or Vendor ID line yields
      a dictionary with no name, vendor_id or product_id key. */
  lemma SerialFirstLacksKeys(line: string, rest: seq<string>)
    requires SerialOf(line).Some? && SerialOf(line).value != ""
    ensures |Parse([line] + rest)| >= 1
    ensures Parse([line] + rest)[0] == Parsed(NoFields, SerialOf(line).value)
    ensures !Complete(Parse([line] + rest)[0].fields)
  {
    assert ([line] + rest)[0] == line;
    assert ([line] + rest)[1..] == rest;
  }

  /** Output whose only relevant line is "Serial Number: SN1" yields one
      device, SN1, without the keys the monitor reads next. */
  lemma SerialOnlyOutputLacksKeys()
    ensures Parse(["Serial Number: SN1"]) == [Parsed(NoFields, "SN1")]
    ensures !Complete(Parse(["Serial Number: SN1"])[0].fields)
  {
    SerialLineExample();
    var lines := ["Serial Number: SN1"];
    SerialFirstLacksKeys(lines[0], []);
    assert [lines[0]] + [] == lines;
    assert ParseFrom(LastWord, NoFields, []) == [];
  }

  /** "Serial Number: SN1" announces serial "SN1". */
  lemma SerialLineExample()
    ensures SerialOf("Serial Number: SN1") == Some("SN1")
  {
    var l: string := "Serial Number: SN1";
    StripExampleLine();
    assert l == SerialPrefix + " SN1";
    StartsWithIsPrefix(l, SerialPrefix);
    SecondFieldExample();
    StripExampleValue();
  }

  lemma SecondFieldExample()
    ensures ':' in "Serial Number: SN1"
    ensures SecondField("Serial Number: SN1") == " SN1"
  {
    var l: string := "Serial Number: SN1";
    assert l == "Serial Number" + ":" + " SN1";
    SecondFieldWhenOneColon("Serial Number", " SN1");
  }

  /** With exactly one colon, the second field is everything after it. */
  lemma SecondFieldWhenOneColon(a: string, b: string)
    requires ':' !in a && ':' !in b
    ensures ':' in a + ":" + b
    ensures SecondField(a + ":" + b) == b
  {
    var l := a + ":" + b;
    assert l[|a|] == ':';
    assert l[..|a|] == a;
    IndexOfUnique(l, ':', |a|);
    assert l[|a| + 1..] == b;
  }

  lemma StripExampleLine()
    ensures Strip("Serial Number: SN1") == "Serial Number: SN1"
  {
    var l: string := "Serial Number: SN1";
    assert !IsSpace(l[0]) && !IsSpace(l[|l| - 1]);
    assert LeadCount(l, IsSpace) == 0;
    assert TrailStart(l, IsSpace) == |l|;
    assert l[0..|l|] == l;
  }

  lemma StripExampleValue()
    ensures Strip(" SN1") == "SN1"
  {
  }

  /** "Product ID: 0x5567" sets product_id to "5567" and nothing else. */
  lemma ProductLineExample(naming: Naming, cur: Fields)
    ensures ParseLine(naming, cur, "Product ID: 0x5567") == (cur.(productId := Some("5567")), None)
  {
    var l: string := "Product ID: 0x5567";
    ProductLineShape();
    assert l[0] == 'P';
    assert !StartsWith(l, SerialPrefix) && !StartsWith(l, VendorPrefix);
    ProductValueExample();
  }

  lemma ProductLineShape()
    ensures Strip("Product ID: 0x5567") == "Product ID: 0x5567"
    ensures StartsWith("Product ID: 0x5567", ProductPrefix)
    ensures |SplitOn("Product ID: 0x5567", ':')| >= 2
    ensures SplitOn("Product ID: 0x5567", ':')[1] == " 0x5567"
  {
    ProductLineStripped();
    ProductLineLabel();
    ProductLineSplit();
  }

  lemma ProductLineStripped()
    ensures Strip("Product ID: 0x5567") == "Product ID: 0x5567"
  {
    var l: string := "Product ID: 0x5567";
    assert !IsSpace(l[0]) && !IsSpace(l[|l| - 1]);
    assert LeadCount(l, IsSpace) == 0;
    assert TrailStart(l, IsSpace) == |l|;
    assert l[0..|l|] == l;
  }

  lemma ProductLineLabel()
    ensures StartsWith("Product ID: 0x5567", ProductPrefix)
  {
    var l: string := "Product ID: 0x5567";
    assert l == ProductPrefix + " 0x5567";
    StartsWithIsPrefix(l, ProductPrefix);
  }

  lemma ProductLineSplit()
    ensures |SplitOn("Product ID: 0x5567", ':')| >= 2
    ensures SplitOn("Product ID: 0x5567", ':')[1] == " 0x5567"
  {
    var l: string := "Product ID: 0x5567";
    assert l == "Product ID" + ":" + " 0x5567";
    SecondFieldWhenOneColon("Product ID", " 0x5567");
    SecondFieldIsSplit(l);
  }

  /** The value " 0x5567" is stripped to "0x5567" and loses its "0x". */
  lemma ProductValueExample()
    ensures Strip(" 0x5567") == "0x5567"
    ensures DeleteAll("0x5567", "0x") == "5567"
  {
    ProductValueStripped();
    ProductValueDeleted();
  }

  lemma ProductValueStripped()
    ensures Strip(" 0x5567") == "0x5567"
  {
  }

  lemma ProductValueDeleted()
    ensures DeleteAll("0x5567", "0x") == "5567"
  {
    DeleteAllFirst("", "0x", "5567");
    assert "" + "0x" + "5567" == "0x5567";
    assert !Occurs("5567", "0x");
  }

  /** The words of "(w1 ... wn)": an opening parenthesis on the first word
      and a closing one on the last. */
  function Bracketed(ws: seq<string>): (bs: seq<string>)
    requires |ws| > 0
    ensures |bs| == |ws|
  {
    CloseLast(["(" + ws[0]] + ws[1..])
  }

  function CloseLast(ws: seq<string>): (cs: seq<string>)
    requires |ws| > 0
    ensures |cs| == |ws|
  {
    ws[..|ws| - 1] + [ws[|ws| - 1] + ")"]
  }

  lemma {:induction false} JoinCloseLast(ws: seq<string>)
    requires |ws| > 0
    ensures Join(CloseLast(ws), ' ') == Join(ws, ' ') + ")"
    decreases |ws|
  {
    if |ws| > 1 {
      var cs := CloseLast(ws);
      CloseLastCons(ws);
      JoinCloseLast(ws[1..]);
      JoinUnfold(cs, ' ');
      JoinUnfold(ws, ' ');
      Assoc(ws[0] + [' '], Join(ws[1..], ' '), ")");
    } else {
      assert CloseLast(ws) == [ws[0] + ")"];
    }
  }

  lemma CloseLastCons(ws: seq<string>)
    requires |ws| > 1
    ensures CloseLast(ws)[0] == ws[0] && CloseLast(ws)[1..] == CloseLast(ws[1..])
  {
    assert ws[1..][..|ws| - 2] == ws[1..|ws| - 1];
  }

  /** Joining the bracketed words puts the parentheses around the joined text. */
  lemma JoinBracketed(ws: seq<string>)
    requires |ws| > 0
    ensures Join(Bracketed(ws), ' ') == "(" + Join(ws, ' ') + ")"
  {
    JoinPrepend("(", ws);
    JoinCloseLast(["(" + ws[0]] + ws[1..]);
  }

  lemma JoinPrepend(x: string, ws: seq<string>)
    requires |ws| > 0
    ensures Join([x + ws[0]] + ws[1..], ' ') == x + Join(ws, ' ')
  {
    var open := [x + ws[0]] + ws[1..];
    if |ws| > 1 {
      assert open[1..] == ws[1..];
      JoinUnfold(open, ' ');
      JoinUnfold(ws, ' ');
      Assoc(x, ws[0], [' '] + Join(ws[1..], ' '));
    } else {
      assert open == [x + ws[0]];
    }
  }

  lemma Assoc(a: string, b: string, c: string)
    ensures (a + b) + c == a + (b + c)
  {
  }

  /** A word that neither starts nor ends with a parenthesis. */
  predicate BareWord(w: string)
  {
    IsWord(w) && !IsParen(w[0]) && !IsParen(w[|w| - 1])
  }

  lemma BracketedWords(ws: seq<string>)
    requires |ws| > 0 && forall i :: 0 <= i < |ws| ==> BareWord(ws[i])
    ensures forall i :: 0 <= i < |ws| ==> IsWord(Bracketed(ws)[i])
    ensures Bracketed(ws)[|ws| - 1] == (if |ws| == 1 then "(" + ws[0] else ws[|ws| - 1]) + ")"
  {
    var open := ["(" + ws[0]] + ws[1..];
    assert forall i :: 0 <= i < |ws| ==> IsWord(open[i]);
  }

  /** A Vendor ID line as system_profiler prints it: the id, a run of
      whitespace, and the vendor name in parentheses. */
  function VendorLine(id: string, gap: string, ws: seq<string>): string
  {
    VendorPrefix + " " + id + gap + "(" + Join(ws, ' ') + ")"
  }

  lemma VendorLineSplit(id: string, gap: string, ws: seq<string>)
    ensures VendorLine(id, gap, ws) == "" + "Vendor" + (" " + "ID:" + (" " + id + (gap + ("(" + Join(ws, ' ') + ")"))))
  {
  }

  lemma LabelWords()
    ensures IsWord("Vendor") && IsWord("ID:") && All("", IsSpace) && All(" ", IsSpace)
  {
    assert forall i :: 0 <= i < |"Vendor"| ==> "Vendor"[i] in "Vendor";
  }

  /** `split()` on a Vendor ID line yields "Vendor", "ID:", the id and the
      bracketed name words. */
  lemma VendorLineWords(id: string, gap: string, ws: seq<string>)
    requires IsWord(id) && |gap| > 0 && All(gap, IsSpace)
    requires |ws| > 0 && forall i :: 0 <= i < |ws| ==> BareWord(ws[i])
    ensures Words(VendorLine(id, gap, ws)) == ["Vendor", "ID:", id] + Bracketed(ws)
  {
    var r2 := " " + id + (gap + ("(" + Join(ws, ' ') + ")"));
    var r1 := " " + "ID:" + r2;
    VendorLineSplit(id, gap, ws);
    IdAndName(id, gap, ws);
    LabelWords();
    assert r1[0] == ' ' && r2[0] == ' ';
    WordsCons(" ", "ID:", r2);
    WordsCons("", "Vendor", r1);
    ThreeInFront("Vendor", "ID:", id, Bracketed(ws));
  }

  lemma ThreeInFront(a: string, b: string, c: string, rest: seq<string>)
    ensures [a] + ([b] + ([c] + rest)) == [a, b, c] + rest
  {
  }

  /** The words after the label: the id, then the bracketed name words. */
  lemma IdAndName(id: string, gap: string, ws: seq<string>)
    requires IsWord(id) && |gap| > 0 && All(gap, IsSpace)
    requires |ws| > 0 && forall i :: 0 <= i < |ws| ==> BareWord(ws[i])
    ensures Words(" " + id + (gap + ("(" + Join(ws, ' ') + ")"))) == [id] + Bracketed(ws)
  {
    var p := "(" + Join(ws, ' ') + ")";
    BracketedWords(ws);
    JoinBracketed(ws);
    WordsJoin(gap, Bracketed(ws));
    assert (gap + p)[0] == gap[0];
    LabelWords();
    WordsCons(" ", id, gap + p);
  }

  /** A Vendor ID line is already stripped and is recognised as one. */
  lemma VendorLineShape(id: string, gap: string, ws: seq<string>)
    ensures Strip(VendorLine(id, gap, ws)) == VendorLine(id, gap, ws)
    ensures StartsWith(VendorLine(id, gap, ws), VendorPrefix)
  {
    var l := VendorLine(id, gap, ws);
    assert l[0] == 'V' && l[|l| - 1] == ')';
    TrimEnds("", l, "", IsSpace);
    assert "" + l + "" == l;
    StartsWithIsPrefix(l, VendorPrefix);
  }

  /** The loop body on a Vendor ID line: the id is read, and the name from
      the bracketed name words. */
  lemma VendorLineParse(naming: Naming, cur: Fields, id: string, gap: string, ws: seq<string>)
    requires IsWord(id) && |gap| > 0 && All(gap, IsSpace)
    requires |ws| > 0 && forall i :: 0 <= i < |ws| ==> BareWord(ws[i])
    ensures ParseLine(naming, cur, VendorLine(id, gap, ws))
            == (cur.(vendorId := Some(id), name := Some(VendorName(naming, ["Vendor", "ID:", id] + Bracketed(ws)))), None)
  {
    var l := VendorLine(id, gap, ws);
    VendorLineShape(id, gap, ws);
    VendorLineWords(id, gap, ws);
    assert l[0] == 'V';
    assert !StartsWith(l, SerialPrefix);
  }

  /** As written, the name is only the last word of a multi-word vendor
      name; the vendor id is read correctly. */
  lemma VendorLineLastWord(cur: Fields, id: string, gap: string, ws: seq<string>)
    requires IsWord(id) && |gap| > 0 && All(gap, IsSpace)
    requires |ws| > 0 && forall i :: 0 <= i < |ws| ==> BareWord(ws[i])
    ensures ParseLine(LastWord, cur, VendorLine(id, gap, ws)) == (cur.(vendorId := Some(id), name := Some(ws[|ws| - 1])), None)
  {
    VendorLineParse(LastWord, cur, id, gap, ws);
    LastBracketedWord(id, ws);
  }

  lemma LastBracketedWord(id: string, ws: seq<string>)
    requires |ws| > 0 && forall i :: 0 <= i < |ws| ==> BareWord(ws[i])
    ensures VendorName(LastWord, ["Vendor", "ID:", id] + Bracketed(ws)) == ws[|ws| - 1]
  {
    BracketedWords(ws);
    var last := ws[|ws| - 1];
    assert BareWord(last);
    if |ws| == 1 {
      TrimEnds("(", last, ")", IsParen);
    } else {
      TrimEnds("", last, ")", IsParen);
      assert "" + last + ")" == last + ")";
    }
  }

  /** Corrected: the name is the whole vendor name, every word of it. */
  lemma VendorLineKeepsName(cur: Fields, id: string, gap: string, ws: seq<string>)
    requires IsWord(id) && |gap| > 0 && All(gap, IsSpace)
    requires |ws| > 0 && forall i :: 0 <= i < |ws| ==> BareWord(ws[i])
    ensures ParseLine(AllWords, cur, VendorLine(id, gap, ws)) == (cur.(vendorId := Some(id), name := Some(Join(ws, ' '))), None)
  {
    VendorLineParse(AllWords, cur, id, gap, ws);
    AllBracketedWords(id, ws);
  }

  lemma AllBracketedWords(id: string, ws: seq<string>)
    requires |ws| > 0 && forall i :: 0 <= i < |ws| ==> BareWord(ws[i])
    ensures VendorName(AllWords, ["Vendor", "ID:", id] + Bracketed(ws)) == Join(ws, ' ')
  {
    var parts := ["Vendor", "ID:", id] + Bracketed(ws);
    assert parts[3..] == Bracketed(ws);
    JoinBracketed(ws);
    JoinEdges(ws);
    TrimEnds("(", Join(ws, ' '), ")", IsParen);
  }

  /** A join of bare words neither starts nor ends with a parenthesis. */
  lemma JoinEdges(ws: seq<string>)
    requires |ws| > 0 && forall i :: 0 <= i < |ws| ==> BareWord(ws[i])
    ensures var j := Join(ws, ' '); |j| > 0 && !IsParen(j[0]) && !IsParen(j[|j| - 1])
  {
    var j := Join(ws, ' ');
    var first := ws[0];
    var last := ws[|ws| - 1];
    assert BareWord(first) && BareWord(last);
    JoinStarts(ws, ' ');
    JoinEnds(ws, ' ');
    assert j[0] == first[0];
    assert j[|j| - 1] == j[|j| - |last|..][|last| - 1];
  }

  /** The vendor line of a SanDisk drive, as system_profiler prints it. */
  const SanDiskVendorLine: string := "Vendor ID: 0x0781  (SanDisk Corporation)"

  lemma SanDiskLine()
    ensures SanDiskVendorLine == VendorLine("0x0781", "  ", SanDiskWords)
  {
    SanDiskJoin();
  }

  /** The words of the SanDisk vendor name. */
  const SanDiskWords: seq<string> := ["SanDisk", "Corporation"]

  lemma SanDiskJoin()
    ensures Join(SanDiskWords, ' ') == "SanDisk Corporation"
  {
  }

  lemma SanDiskPieces()
    ensures IsWord("0x0781") && |"  "| > 0 && All("  ", IsSpace)
    ensures |SanDiskWords| > 0 && forall i :: 0 <= i < |SanDiskWords| ==> BareWord(SanDiskWords[i])
  {
    assert BareWord(SanDiskWords[0]);
    assert BareWord(SanDiskWords[1]);
  }

  /** As written, the SanDisk drive is named "Corporation". */
  lemma SanDiskNamedCorporation(cur: Fields)
    ensures ParseLine(LastWord, cur, SanDiskVendorLine) == (cur.(vendorId := Some("0x0781"), name := Some("Corporation")), None)
  {
    SanDiskLine();
    SanDiskPieces();
    VendorLineLastWord(cur, "0x0781", "  ", SanDiskWords);
  }

  /** Corrected, the SanDisk drive is named "SanDisk Corporation". */
  lemma SanDiskNamedInFull(cur: Fields)
    ensures ParseLine(AllWords, cur, SanDiskVendorLine) == (cur.(vendorId := Some("0x0781"), name := Some("SanDisk Corporation")), None)
  {
    SanDiskLine();
    SanDiskPieces();
    SanDiskJoin();
    VendorLineKeepsName(cur, "0x0781", "  ", SanDiskWords);
  }

  /** Two dictionaries with the same ids and the same keys present. */
  predicate SameIds(f: Fields, g: Fields)
  {
    f.vendorId == g.vendorId && f.productId == g.productId && (f.name.Some? <==> g.name.Some?)
  }

  /** Two device lists that differ at most in the names they carry. */
  predicate SameDevices(d: seq<Parsed>, e: seq<Parsed>)
  {
    |d| == |e| && forall i :: 0 <= i < |d| ==> d[i].serial == e[i].serial && SameIds(d[i].fields, e[i].fields)
  }

  lemma LineSameIds(n1: Naming, n2: Naming, c1: Fields, c2: Fields, line: string)
    requires SameIds(c1, c2)
    ensures SameIds(ParseLine(n1, c1, line).0, ParseLine(n2, c2, line).0)
    ensures ParseLine(n1, c1, line).1.Some? <==> ParseLine(n2, c2, line).1.Some?
    ensures ParseLine(n1, c1, line).1.Some? ==>
              && ParseLine(n1, c1, line).1.value.serial == ParseLine(n2, c2, line).1.value.serial
              && SameIds(ParseLine(n1, c1, line).1.value.fields, ParseLine(n2, c2, line).1.value.fields)
  {
  }

  lemma SameDevicesCons(a: Option<Parsed>, b: Option<Parsed>, d: seq<Parsed>, e: seq<Parsed>)
    requires a.Some? <==> b.Some?
    requires a.Some? ==> a.value.serial == b.value.serial && SameIds(a.value.fields, b.value.fields)
    requires SameDevices(d, e)
    ensures SameDevices((if a.Some? then [a.value] else []) + d, (if b.Some? then [b.value] else []) + e)
  {
  }

  /** How the name is read changes no serial, no id and no missing key: both
      loops report the same devices in the same order. */
  lemma {:induction false} NamingKeepsDevices(n1: Naming, n2: Naming, c1: Fields, c2: Fields, lines: seq<string>)
    requires SameIds(c1, c2)
    ensures SameDevices(ParseFrom(n1, c1, lines), ParseFrom(n2, c2, lines))
    decreases |lines|
  {
    if |lines| > 0 {
      var s1 := ParseLine(n1, c1, lines[0]);
      var s2 := ParseLine(n2, c2, lines[0]);
      LineSameIds(n1, n2, c1, c2, lines[0]);
      NamingKeepsDevices(n1, n2, s1.0, s2.0, lines[1..]);
      SameDevicesCons(s1.1, s2.1, ParseFrom(n1, s1.0, lines[1..]), ParseFrom(n2, s2.0, lines[1..]));
    }
  }

  /** `current` seeded with "Unknown" for every key, the source's own
      placeholder: the corrected start of the loop. */
  const UnknownFields: Fields := Fields(Some(Unknown), Some(Unknown), Some(Unknown))

  /** A missing key read as "Unknown". */
  function OrUnknown(v: Option<string>): string
  {
    match v
    case Some(s) => s
    case None => Unknown
  }

  function Fill(f: Fields): (g: Fields)
    ensures Complete(g)
  {
    Fields(Some(OrUnknown(f.name)), Some(OrUnknown(f.vendorId)), Some(OrUnknown(f.productId)))
  }

  function FillAll(devs: seq<Parsed>): (r: seq<Parsed>)
    ensures |r| == |devs|
    ensures forall i :: 0 <= i < |devs| ==> r[i] == Parsed(Fill(devs[i].fields), devs[i].serial)
  {
    if |devs| == 0 then [] else [Parsed(Fill(devs[0].fields), devs[0].serial)] + FillAll(devs[1..])
  }

  /** Seeding the loop with placeholders changes nothing but the missing keys. */
  lemma {:induction false} ParseFromFill(naming: Naming, cur: Fields, lines: seq<string>)
    ensures ParseFrom(naming, Fill(cur), lines) == FillAll(ParseFrom(naming, cur, lines))
    decreases |lines|
  {
    if |lines| > 0 {
      var step := ParseLine(naming, cur, lines[0]);
      var filled := ParseLine(naming, Fill(cur), lines[0]);
      assert filled.0 == Fill(step.0);
      ParseFromFill(naming, step.0, lines[1..]);
    }
  }

  /** The device dictionary as the rest of the program reads it. */
  function ToRecord(p: Parsed): DeviceRecord
    requires Complete(p.fields)
  {
    DeviceRecord(p.fields.name.value, p.fields.vendorId.value, p.fields.productId.value, p.serial)
  }

  function ToRecords(devs: seq<Parsed>): (snap: Snapshot)
    requires forall i :: 0 <= i < |devs| ==> Complete(devs[i].fields)
    ensures |snap| == |devs|
    ensures forall i :: 0 <= i < |devs| ==> snap[i] == ToRecord(devs[i])
  {
    if |devs| == 0 then [] else [ToRecord(devs[0])] + ToRecords(devs[1..])
  }

  /** The loop with the corrected name, still started from an empty `current`. */
  function ParseFullNames(lines: seq<string>): seq<Parsed>
  {
    ParseFrom(AllWords, NoFields, lines)
  }

  /** The corrected Darwin provider: the parse loop started from placeholders
      and keeping the whole vendor name. It reports the same devices, with the
      same serials in the same order, as the loop as written; each id is the
      value that loop read, or "Unknown" where it left the key missing; the
      name is the whole vendor name, or "Unknown". */
  function DarwinSnapshot(lines: seq<string>): (snap: Snapshot)
    ensures |snap| == |Parse(lines)| == |ParseFullNames(lines)|
    ensures forall i :: 0 <= i < |snap| ==>
              && snap[i].serial == Parse(lines)[i].serial
              && snap[i].vendorId == OrUnknown(Parse(lines)[i].fields.vendorId)
              && snap[i].productId == OrUnknown(Parse(lines)[i].fields.productId)
              && snap[i].name == OrUnknown(ParseFullNames(lines)[i].fields.name)
  {
    var devs := ParseFrom(AllWords, UnknownFields, lines);
    assert Fill(NoFields) == UnknownFields;
    ParseFromFill(AllWords, NoFields, lines);
    NamingKeepsDevices(LastWord, AllWords, NoFields, NoFields, lines);
    ToRecords(devs)
  }

  /** Where the corrected loop filled in every key, the provider reports
      exactly its record; no device has an empty serial. */
  lemma DarwinSnapshotKeepsComplete(lines: seq<string>)
    ensures forall i :: 0 <= i < |DarwinSnapshot(lines)| ==>
              && DarwinSnapshot(lines)[i].serial != ""
              && (Complete(ParseFullNames(lines)[i].fields) ==> DarwinSnapshot(lines)[i] == ToRecord(ParseFullNames(lines)[i]))
  {
    var devs := ParseFrom(AllWords, UnknownFields, lines);
    assert Fill(NoFields) == UnknownFields;
    ParseFromFill(AllWords, NoFields, lines);
  }
}
