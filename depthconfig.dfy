/** The depth-quantisation and render-depth part of reading a depth-map
    configuration: the depth count chosen by FlagChangeDepthQuantization,
    and the RenderDepth text, which is either "start:end" (an inclusive
    range replacing the list) or whitespace-separated integers appended to
    the list. Integers are read the way std::stoi and operator>> read them:
    leading white space, an optional sign, then the longest run of decimal
    digits. */
module DepthConfig {
  import opened Wrappers

  // ---------------------------------------------------------------------
  // Reading one integer

  /** The characters isspace accepts in the C locale. */
  predicate IsSpace(ch: char)
  {
    ch == ' ' || ch == '\t' || ch == '\n' || ch == '\r' || ch == '\U{B}' || ch == '\U{C}'
  }

  predicate IsDigit(ch: char)
  {
    '0' <= ch <= '9'
  }

  /** The text after its leading white space. */
  function SkipSpace(s: string): (r: string)
    ensures |r| <= |s|
  {
    if |s| > 0 && IsSpace(s[0]) then SkipSpace(s[1..]) else s
  }

  /** The length of the run of digits that starts s. */
  function DigitRun(s: string): (n: nat)
    ensures n <= |s|
    ensures forall i :: 0 <= i < n ==> IsDigit(s[i])
    ensures n < |s| ==> !IsDigit(s[n])
  {
    if |s| > 0 && IsDigit(s[0]) then 1 + DigitRun(s[1..]) else 0
  }

  function DigitOf(ch: char): nat
    requires IsDigit(ch)
  {
    ch as int - '0' as int
  }

  /** The value of a string of decimal digits, most significant first. */
  function DigitsValue(s: string): nat
    requires forall i :: 0 <= i < |s| ==> IsDigit(s[i])
  {
    if |s| == 0 then 0
    else 10 * DigitsValue(s[..|s| - 1]) + DigitOf(s[|s| - 1])
  }

  /** The integer at the head of s and the text after it, or None when no
      digit follows the white space and optional sign. */
  function LeadingInt(s: string): (r: Option<(int, string)>)
    ensures r.Some? ==> |r.value.1| < |s|
  {
    var t := SkipSpace(s);
    var signed := |t| > 0 && (t[0] == '-' || t[0] == '+');
    var body := if signed then t[1..] else t;
    var n := DigitRun(body);
    if n == 0 then None
    else
      var magnitude: int := DigitsValue(body[..n]);
      Some((if signed && t[0] == '-' then -magnitude else magnitude, body[n..]))
  }

  /** Every integer `while (ss >> render)` extracts: it stops at the first
      token that does not start with a number. */
  function StreamInts(s: string): (r: seq<int>)
    decreases |s|
  {
    match LeadingInt(s)
    case None => []
    case Some((v, rest)) => [v] + StreamInts(rest)
  }

  // ---------------------------------------------------------------------
  // Writing integers, for the round trip

  function DigitChar(d: nat): char
    requires d < 10
  {
    ('0' as int + d) as char
  }

  /** The decimal digits of n, most significant first. */
  function Decimal(n: nat): (r: string)
    ensures |r| > 0 && forall i :: 0 <= i < |r| ==> IsDigit(r[i])
  {
    if n < 10 then [DigitChar(n)] else Decimal(n / 10) + [DigitChar(n % 10)]
  }

  /** An integer as operator<< writes it. */
  function IntText(v: int): string
  {
    if v < 0 then "-" + Decimal(-v) else Decimal(v)
  }

  /** Integers separated by one space each. */
  function Spaced(xs: seq<int>): string
  {
    if |xs| == 0 then "" else IntText(xs[0]) + " " + Spaced(xs[1..])
  }

  lemma {:induction false} DecimalValue(n: nat)
    ensures DigitsValue(Decimal(n)) == n
  {
    if n >= 10 {
      DecimalValue(n / 10);
      var r := Decimal(n);
      assert r[..|r| - 1] == Decimal(n / 10);
    }
  }

  lemma {:induction false} DigitRunStops(digits: string, rest: string)
    requires forall i :: 0 <= i < |digits| ==> IsDigit(digits[i])
    requires |rest| > 0 && !IsDigit(rest[0])
    ensures DigitRun(digits + rest) == |digits|
  {
    if |digits| > 0 {
      assert (digits + rest)[1..] == digits[1..] + rest;
      DigitRunStops(digits[1..], rest);
    } else {
      assert digits + rest == rest;
    }
  }

  /** Digits followed by a non-digit read back as their value. */
  lemma {:induction false} DigitsRead(d: string, u: string, v: nat)
    requires |d| > 0 && forall i :: 0 <= i < |d| ==> IsDigit(d[i])
    requires DigitsValue(d) == v
    requires |u| > 0 && !IsDigit(u[0])
    ensures LeadingInt(d + u) == Some((v as int, u))
  {
    var s := d + u;
    assert !IsSpace(s[0]) && s[0] != '-' && s[0] != '+';
    DigitRunStops(d, u);
    assert s[..|d|] == d && s[|d|..] == u;
  }

  /** A sign, then digits followed by a non-digit. */
  lemma {:induction false} NegativeRead(d: string, u: string, v: nat)
    requires |d| > 0 && forall i :: 0 <= i < |d| ==> IsDigit(d[i])
    requires DigitsValue(d) == v
    requires |u| > 0 && !IsDigit(u[0])
    ensures LeadingInt("-" + (d + u)) == Some((-(v as int), u))
  {
    var s := "-" + (d + u);
    assert !IsSpace(s[0]);
    assert s[1..] == d + u;
    DigitRunStops(d, u);
    assert (d + u)[..|d|] == d && (d + u)[|d|..] == u;
  }

  /** A written integer followed by a space reads back as itself. */
  lemma {:induction false} IntTextReads(v: int, rest: string)
    ensures LeadingInt(IntText(v) + (" " + rest)) == Some((v, " " + rest))
  {
    var u := " " + rest;
    assert !IsDigit(u[0]);
    if v < 0 {
      NegativeTextReads(-v, u);
    } else {
      NaturalTextReads(v, u);
    }
  }

  lemma {:induction false} NegativeTextReads(n: nat, u: string)
    requires n > 0 && |u| > 0 && !IsDigit(u[0])
    ensures LeadingInt(IntText(-(n as int)) + u) == Some((-(n as int), u))
  {
    var d := Decimal(n);
    assert IntText(-(n as int)) == "-" + d;
    assert ("-" + d) + u == "-" + (d + u);
    DecimalValue(n);
    NegativeRead(d, u, n);
  }

  lemma {:induction false} NaturalTextReads(n: nat, u: string)
    requires |u| > 0 && !IsDigit(u[0])
    ensures LeadingInt(IntText(n) + u) == Some((n, u))
  {
    var d := Decimal(n);
    assert IntText(n) + u == d + u;
    DecimalValue(n);
    DigitsRead(d, u, n);
  }

  /** Round trip: integers written with single spaces between them are read
      back, in order, by the extraction loop. */
  lemma {:induction false} StreamIntsRoundTrip(xs: seq<int>)
    ensures StreamInts(Spaced(xs)) == xs
  {
    if |xs| == 0 {
      assert StreamInts("") == [];
    } else {
      var tail := Spaced(xs[1..]);
      var u := " " + tail;
      assert Spaced(xs) == IntText(xs[0]) + u;
      IntTextReads(xs[0], tail);
      assert StreamInts(Spaced(xs)) == [xs[0]] + StreamInts(u);
      LeadingSpace(tail);
      StreamIntsRoundTrip(xs[1..]);
      assert [xs[0]] + xs[1..] == xs;
    }
  }

  /** A leading space does not change what is read. */
  lemma {:induction false} LeadingSpace(s: string)
    ensures StreamInts(" " + s) == StreamInts(s)
  {
    assert (" " + s)[1..] == s;
    assert SkipSpace(" " + s) == SkipSpace(s);
    assert LeadingInt(" " + s) == LeadingInt(s);
  }

  // ---------------------------------------------------------------------
  // The RenderDepth text

  /** The position of the first ':' (std::string::find). */
  function FindColon(s: string): (r: Option<nat>)
    ensures r.Some? ==> r.value < |s| && s[r.value] == ':' && forall i :: 0 <= i < r.value ==> s[i] != ':'
    ensures r.None? ==> forall i :: 0 <= i < |s| ==> s[i] != ':'
  {
    if |s| == 0 then None
    else if s[0] == ':' then Some(0)
    else match FindColon(s[1..])
      case None => None
      case Some(k) => Some(k + 1)
  }

  /** start, start + 1, ..., end; empty when start > end. */
  function Range(start: int, end: int): (r: seq<int>)
    ensures |r| == if start <= end then end - start + 1 else 0
    ensures forall i :: 0 <= i < |r| ==> r[i] == start + i
    decreases end - start
  {
    if start > end then [] else [start] + Range(start + 1, end)
  }

  /** What parsing RenderDepth leaves in the list, or None when std::stoi
      throws because one side of the ':' holds no number. */
  function RenderDepthList(text: string, prior: seq<int>): Option<seq<int>>
  {
    match FindColon(text)
    case Some(found) =>
      (match (LeadingInt(text[..found]), LeadingInt(text[found + 1..]))
       case (Some((start, _)), Some((end, _))) => Some(Range(start, end))
       case _ => None)
    case None => Some(prior + StreamInts(text))
  }

  /** With a ':' the list is cleared first: what was there before does not
      matter. */
  lemma {:induction false} ColonClearsList(text: string, prior: seq<int>, i: int)
    requires 0 <= i < |text| && text[i] == ':'
    ensures RenderDepthList(text, prior) == RenderDepthList(text, [])
  {
    assert FindColon(text).Some?;
  }

  /** Without a ':' the integers read are appended after what was there. */
  lemma {:induction false} NoColonAppends(text: string, prior: seq<int>)
    requires forall i :: 0 <= i < |text| ==> text[i] != ':'
    ensures RenderDepthList(text, prior) == Some(prior + StreamInts(text))
    ensures RenderDepthList(text, prior).value[..|prior|] == prior
  {
    assert FindColon(text).None?;
    assert (prior + StreamInts(text))[..|prior|] == prior;
  }

  /** The first ':' of p + ":" + q, when p has none, is at |p|. */
  lemma {:induction false} FindColonAfter(p: string, q: string)
    requires forall i :: 0 <= i < |p| ==> p[i] != ':'
    ensures FindColon(p + ":" + q) == Some(|p|)
  {
    if |p| > 0 {
      assert (p + ":" + q)[1..] == p[1..] + ":" + q;
      FindColonAfter(p[1..], q);
    }
  }

  /** "start:end" written out yields exactly start, start + 1, ..., end,
      and nothing when start > end. */
  lemma {:induction false} RangeText(start: int, end: int, prior: seq<int>)
    ensures RenderDepthList(IntText(start) + ":" + IntText(end), prior) == Some(Range(start, end))
  {
    var p, q := IntText(start), IntText(end);
    var t := p + ":" + q;
    IntTextNoColon(start);
    FindColonAfter(p, q);
    assert t[..|p|] == p;
    assert t[|p| + 1..] == q;
    IntTextPrefix(start);
    IntTextPrefix(end);
  }

  /** A written integer holds no ':'. */
  lemma {:induction false} IntTextNoColon(v: int)
    ensures forall i :: 0 <= i < |IntText(v)| ==> IntText(v)[i] != ':'
  {
    var p := IntText(v);
    var d := if v < 0 then Decimal(-v) else Decimal(v);
    assert forall i :: 0 <= i < |d| ==> IsDigit(d[i]);
    if v < 0 {
      assert forall i :: 1 <= i < |p| ==> p[i] == d[i - 1];
    }
  }

  /** A written integer on its own reads back as itself. */
  lemma {:induction false} IntTextPrefix(v: int)
    ensures LeadingInt(IntText(v)) == Some((v, ""))
  {
    if v < 0 {
      NegativeTextPrefix(-v);
    } else {
      NaturalTextPrefix(v);
    }
  }

  lemma {:induction false} NegativeTextPrefix(n: nat)
    requires n > 0
    ensures LeadingInt(IntText(-(n as int))) == Some((-(n as int), ""))
  {
    var d := Decimal(n);
    assert IntText(-(n as int)) == "-" + d;
    NegativePrefix(d);
    DecimalValue(n);
  }

  lemma {:induction false} NaturalTextPrefix(n: nat)
    ensures LeadingInt(IntText(n)) == Some((n as int, ""))
  {
    var d := Decimal(n);
    assert IntText(n) == d;
    DigitsPrefix(d);
    DecimalValue(n);
  }

  /** Digits on their own read back as their value. */
  lemma {:induction false} DigitsPrefix(d: string)
    requires |d| > 0 && forall i :: 0 <= i < |d| ==> IsDigit(d[i])
    ensures LeadingInt(d) == Some((DigitsValue(d) as int, ""))
  {
    DigitRunAll(d);
    assert SkipSpace(d) == d;
    assert d[..|d|] == d;
  }

  /** A minus sign and digits on their own read back as the negated value. */
  lemma {:induction false} NegativePrefix(d: string)
    requires |d| > 0 && forall i :: 0 <= i < |d| ==> IsDigit(d[i])
    ensures LeadingInt("-" + d) == Some((-(DigitsValue(d) as int), ""))
  {
    var s := "-" + d;
    DigitRunAll(d);
    assert SkipSpace(s) == s;
    assert s[1..] == d;
    assert d[..|d|] == d;
  }

  lemma {:induction false} DigitRunAll(digits: string)
    requires forall i :: 0 <= i < |digits| ==> IsDigit(digits[i])
    ensures DigitRun(digits) == |digits|
  {
    if |digits| > 0 {
      DigitRunAll(digits[1..]);
    }
  }

  // ---------------------------------------------------------------------
  // The depth-count choice and the order of the two flag reads

  /** num_of_depth: the default count when FlagChangeDepthQuantization is
      false, otherwise NumberOfDepthQuantization. */
  function DepthCount(flagChange: bool, defaultCount: nat, numberCount: nat): nat
  {
    if !flagChange then defaultCount else numberCount
  }

  datatype DepthSettings = DepthSettings(
    flagChange: bool,      // FLAG_CHANGE_DEPTH_QUANTIZATION after the read
    numOfDepth: nat,
    renderDepth: seq<int>)

  /** How this part of the read ends: with the settings, with the `false`
      return (no RenderDepth element, or an empty list), or with the
      exception std::stoi throws. */
  datatype ReadOutcome = Read(settings: DepthSettings) | Rejected | Thrown

  /** The depth part of readConfig. `renderDepthBool` is what the XML
      library's boolean query of the RenderDepth element yields (None when
      it fails); it is stored into the change-depth flag after the depth
      count has already been chosen. */
  function ReadDepthSettings(flagChange: bool, defaultCount: nat, numberCount: nat,
                             renderDepthBool: Option<bool>, text: string, prior: seq<int>): ReadOutcome
  {
    var numOfDepth := DepthCount(flagChange, defaultCount, numberCount);
    match renderDepthBool
    case None => Rejected
    case Some(flag) =>
      match RenderDepthList(text, prior)
      case None => Thrown
      case Some(list) => if |list| == 0 then Rejected else Read(DepthSettings(flag, numOfDepth, list))
  }

  /** The depth count follows the flag as it was before RenderDepth was
      read, and the flag then holds the RenderDepth query result. */
  lemma {:induction false} FlagOverwrittenAfterCount(flagChange: bool, defaultCount: nat, numberCount: nat,
                                                     renderDepthBool: Option<bool>, text: string, prior: seq<int>)
    ensures var out := ReadDepthSettings(flagChange, defaultCount, numberCount, renderDepthBool, text, prior);
      out.Read? ==>
        out.settings.numOfDepth == (if flagChange then numberCount else defaultCount) &&
        renderDepthBool == Some(out.settings.flagChange) &&
        |out.settings.renderDepth| > 0
    ensures var out := ReadDepthSettings(flagChange, defaultCount, numberCount, renderDepthBool, text, prior);
      out.Rejected? <==> (renderDepthBool.None? ||
        (RenderDepthList(text, prior).Some? && |RenderDepthList(text, prior).value| == 0))
  {
  }

  // ---------------------------------------------------------------------
  // The parse as the source runs it

  /** `for (k = start; k <= end; k++) push_back(k)` on a cleared list. */
  method PushRange(start: int, end: int) returns (list: seq<int>)
    ensures list == Range(start, end)
  {
    list := [];
    var k := start;
    while k <= end
      invariant start <= k <= if start <= end then end + 1 else start
      invariant list == Range(start, k - 1)
      decreases end - k
    {
      list := list + [k];
      k := k + 1;
    }
  }

  /** `while (ss >> render) push_back(render)`. */
  method PushStream(text: string, prior: seq<int>) returns (list: seq<int>)
    ensures list == prior + StreamInts(text)
  {
    list := prior;
    var rest := text;
    while true
      invariant list + StreamInts(rest) == prior + StreamInts(text)
      decreases |rest|
    {
      match LeadingInt(rest) {
        case None =>
          assert StreamInts(rest) == [];
          assert list + [] == list;
          return;
        case Some((render, after)) =>
          assert StreamInts(rest) == [render] + StreamInts(after);
          assert list + [render] + StreamInts(after) == list + ([render] + StreamInts(after));
          list := list + [render];
          rest := after;
      }
    }
  }

  /** The RenderDepth branch of readConfig: on a ':' clear the list and
      push start .. end; otherwise push every integer the stream yields.
      None stands for the exception std::stoi throws. */
  method ParseRenderDepth(text: string, prior: seq<int>) returns (renderDepth: Option<seq<int>>)
    ensures renderDepth == RenderDepthList(text, prior)
  {
    var found := FindColon(text);
    if found.Some? {
      var s := LeadingInt(text[..found.value]);
      var e := LeadingInt(text[found.value + 1..]);
      if s.None? || e.None? {
        return None;
      }
      var list := PushRange(s.value.0, e.value.0);
      return Some(list);
    }
    var list := PushStream(text, prior);
    return Some(list);
  }
}
