/** The check-in configuration: the reward schedule, given as a comma-separated list of
    integers, and the monthly cap (config/CheckinConfig.java). */
module Config {
  import Int32
  import opened Wrappers
  import opened Decimal

  /** The pieces of `s` between commas, empty pieces included (n commas give n + 1 pieces). */
  function SplitAll(s: string): (parts: seq<string>)
    ensures |parts| >= 1
    ensures forall i :: 0 <= i < |parts| ==> ',' !in parts[i]
  {
    if |s| == 0 then [""]
    else if s[0] == ',' then [""] + SplitAll(s[1..])
    else
      var rest := SplitAll(s[1..]);
      [[s[0]] + rest[0]] + rest[1..]
  }

  /** Drops the empty pieces at the end, as `split` with no limit does. */
  function DropTrailingEmpty(parts: seq<string>): (r: seq<string>)
    ensures |r| <= |parts| && r == parts[..|r|]
    ensures |r| > 0 ==> r[|r| - 1] != ""
    ensures forall i :: |r| <= i < |parts| ==> parts[i] == ""
  {
    if |parts| > 0 && parts[|parts| - 1] == "" then DropTrailingEmpty(parts[..|parts| - 1])
    else parts
  }

  /** `s.split(",")`: the text itself when it holds no comma, otherwise the pieces with the
      trailing empty ones removed ("10,20," gives ["10", "20"], "," gives []). */
  function JavaSplit(s: string): (r: seq<string>)
    ensures ',' !in s ==> r == [s]
    ensures ',' in s && |r| > 0 ==> r[|r| - 1] != ""
  {
    if ',' !in s then [s] else DropTrailingEmpty(SplitAll(s))
  }

  /** No piece of `split(",")` holds a comma. */
  lemma JavaSplitCommaFree(s: string)
    ensures CommaFree(JavaSplit(s))
  {
    if ',' in s {
      var parts := SplitAll(s);
      var kept := JavaSplit(s);
      forall i | 0 <= i < |kept| ensures ',' !in kept[i] {
        assert kept[i] == parts[i];
      }
    }
  }

  /** `String.trim()`: removes every leading and trailing character up to U+0020. */
  function TrimStart(s: string): string {
    if |s| > 0 && s[0] <= ' ' then TrimStart(s[1..]) else s
  }

  function TrimEnd(s: string): string {
    if |s| > 0 && s[|s| - 1] <= ' ' then TrimEnd(s[..|s| - 1]) else s
  }

  function Trim(s: string): string {
    TrimEnd(TrimStart(s))
  }

  lemma {:induction false} TrimStartShape(s: string)
    ensures |TrimStart(s)| <= |s|
    ensures |TrimStart(s)| > 0 ==> TrimStart(s)[0] > ' '
  {
    if |s| > 0 && s[0] <= ' ' {
      TrimStartShape(s[1..]);
    }
  }

  lemma {:induction false} TrimEndShape(s: string)
    ensures |TrimEnd(s)| <= |s| && TrimEnd(s) == s[..|TrimEnd(s)|]
    ensures |TrimEnd(s)| > 0 ==> TrimEnd(s)[|TrimEnd(s)| - 1] > ' '
  {
    if |s| > 0 && s[|s| - 1] <= ' ' {
      TrimEndShape(s[..|s| - 1]);
    }
  }

  /** `trim` never lengthens the text, and what it leaves starts and ends with a character
      above U+0020. */
  lemma TrimShape(s: string)
    ensures |Trim(s)| <= |s|
    ensures |Trim(s)| > 0 ==> Trim(s)[0] > ' ' && Trim(s)[|Trim(s)| - 1] > ' '
  {
    TrimStartShape(s);
    TrimEndShape(TrimStart(s));
    var t := Trim(s);
    if |t| > 0 {
      assert t[0] == TrimStart(s)[0];
    }
  }

  /** Parses every piece, failing as a whole when one piece fails. */
  function ParseAll(pieces: seq<string>): (r: Option<seq<int>>)
    ensures r.Some? ==> |r.value| == |pieces|
  {
    if |pieces| == 0 then Some([])
    else
      var head := ParseInt(Trim(pieces[0]));
      var tail := ParseAll(pieces[1..]);
      if head.Some? && tail.Some? then Some([head.value] + tail.value) else None
  }

  /** The body of `init()`: split on ",", trim each piece, `Integer.parseInt` each piece;
      None stands for the NumberFormatException that stops start-up. */
  function ParsePointsSequence(text: string): (r: Option<seq<int>>)
    ensures r.Some? ==> |r.value| == |JavaSplit(text)|
  {
    ParseAll(JavaSplit(text))
  }

  /** The list parses exactly when every trimmed piece parses, and then holds the value of
      each piece, in order. */
  lemma {:induction false} ParseAllSpec(pieces: seq<string>)
    ensures ParseAll(pieces).Some? <==> forall i :: 0 <= i < |pieces| ==> ParseInt(Trim(pieces[i])).Some?
    ensures ParseAll(pieces).Some? ==>
      forall i :: 0 <= i < |pieces| ==> ParseAll(pieces).value[i] == ParseInt(Trim(pieces[i])).value
  {
    if |pieces| > 0 {
      var tail := pieces[1..];
      ParseAllSpec(tail);
      var r := ParseAll(pieces);
      if r.Some? {
        forall i | 0 <= i < |pieces|
          ensures ParseInt(Trim(pieces[i])).Some? && r.value[i] == ParseInt(Trim(pieces[i])).value
        {
          if i > 0 {
            assert pieces[i] == tail[i - 1];
          }
        }
      } else if ParseInt(Trim(pieces[0])).Some? {
        var j :| 0 <= j < |tail| && ParseInt(Trim(tail[j])).None?;
        assert pieces[j + 1] == tail[j];
      }
    }
  }

  /** `init` succeeds exactly when every trimmed piece of `split(",")` is an `int`, and then
      the schedule holds those `int`s, one per piece, in order. */
  lemma ParsePointsSequenceSpec(text: string)
    ensures var pieces := JavaSplit(text);
      && (ParsePointsSequence(text).Some? <==> forall i :: 0 <= i < |pieces| ==> ParseInt(Trim(pieces[i])).Some?)
      && (ParsePointsSequence(text).Some? ==>
            && |ParsePointsSequence(text).value| == |pieces|
            && forall i :: 0 <= i < |pieces| ==> ParsePointsSequence(text).value[i] == ParseInt(Trim(pieces[i])).value)
  {
    ParseAllSpec(JavaSplit(text));
  }

  /** The configuration text for a list: the decimal forms joined with ",". */
  function Join(parts: seq<string>): string {
    if |parts| == 0 then ""
    else if |parts| == 1 then parts[0]
    else parts[0] + "," + Join(parts[1..])
  }

  function DecAll(xs: seq<int>): (r: seq<string>)
    ensures |r| == |xs|
  {
    if |xs| == 0 then [] else [Dec(xs[0])] + DecAll(xs[1..])
  }

  lemma {:induction false} DecAllAt(xs: seq<int>, i: int)
    requires 0 <= i < |xs|
    ensures DecAll(xs)[i] == Dec(xs[i])
  {
    if i > 0 {
      DecAllAt(xs[1..], i - 1);
    }
  }

  lemma {:induction false} SplitPrefix(p: string, t: string)
    requires ',' !in p
    ensures SplitAll(p + "," + t) == [p] + SplitAll(t)
    ensures SplitAll(p) == [p]
    decreases |p|
  {
    if |p| > 0 {
      assert (p + "," + t)[1..] == p[1..] + "," + t;
      SplitPrefix(p[1..], t);
      assert [p[0]] + p[1..] == p;
    }
  }

  lemma {:induction false} SplitJoin(parts: seq<string>)
    requires |parts| >= 1
    requires forall i :: 0 <= i < |parts| ==> ',' !in parts[i]
    ensures SplitAll(Join(parts)) == parts
  {
    if |parts| == 1 {
      SplitPrefix(parts[0], "");
    } else {
      SplitJoin(parts[1..]);
      SplitPrefix(parts[0], Join(parts[1..]));
    }
  }

  /** Characters that `trim` removes: everything up to U+0020. */
  predicate Blank(ws: string) {
    forall i :: 0 <= i < |ws| ==> ws[i] <= ' '
  }

  lemma {:induction false} TrimStartSkips(ws: string, t: string)
    requires Blank(ws) && |t| > 0 && t[0] > ' '
    ensures TrimStart(ws + t) == t
    decreases |ws|
  {
    if |ws| == 0 {
      assert ws + t == t;
    } else {
      assert (ws + t)[1..] == ws[1..] + t;
      TrimStartSkips(ws[1..], t);
    }
  }

  lemma {:induction false} TrimEndSkips(t: string, ws: string)
    requires Blank(ws) && |t| > 0 && t[|t| - 1] > ' '
    ensures TrimEnd(t + ws) == t
    decreases |ws|
  {
    if |ws| == 0 {
      assert t + ws == t;
    } else {
      assert (t + ws)[..|t + ws| - 1] == t + ws[..|ws| - 1];
      TrimEndSkips(t, ws[..|ws| - 1]);
    }
  }

  /** `trim` removes blank padding on both sides of a text that starts and ends with
      visible characters, and nothing else. */
  lemma TrimPadded(before: string, t: string, after: string)
    requires Blank(before) && Blank(after)
    requires |t| > 0 && t[0] > ' ' && t[|t| - 1] > ' '
    ensures Trim(before + t + after) == t
  {
    assert before + t + after == before + (t + after);
    TrimStartSkips(before, t + after);
    TrimEndSkips(t, after);
  }

  /** A piece holding the decimal text of an `int`, padded with blanks, parses to it. */
  lemma ParsePaddedDec(before: string, n: int, after: string)
    requires Int32.InRange(n) && Blank(before) && Blank(after)
    ensures ParseInt(Trim(before + Dec(n) + after)) == Some(n)
  {
    DecShape(n);
    TrimPadded(before, Dec(n), after);
    ParseIntDec(n);
  }

  lemma ParseAllCons(pieces: seq<string>, v: int, vs: seq<int>)
    requires |pieces| > 0
    requires ParseInt(Trim(pieces[0])) == Some(v)
    requires ParseAll(pieces[1..]) == Some(vs)
    ensures ParseAll(pieces) == Some([v] + vs)
  {
  }

  lemma ParseAllNoneHead(pieces: seq<string>)
    requires |pieces| > 0 && ParseInt(Trim(pieces[0])).None?
    ensures ParseAll(pieces) == None
  {
  }

  lemma ParseAllNoneTail(pieces: seq<string>)
    requires |pieces| > 0 && ParseAll(pieces[1..]).None?
    ensures ParseAll(pieces) == None
  {
  }

  /** The pieces trim to the decimal texts of in-range `xs`. */
  predicate TrimsToDecimals(pieces: seq<string>, xs: seq<int>) {
    |pieces| == |xs| &&
    forall i :: 0 <= i < |xs| ==> Int32.InRange(xs[i]) && Trim(pieces[i]) == Dec(xs[i])
  }

  lemma TrimsToDecimalsTail(pieces: seq<string>, xs: seq<int>)
    requires |xs| > 0 && TrimsToDecimals(pieces, xs)
    ensures TrimsToDecimals(pieces[1..], xs[1..])
  {
    forall i | 0 <= i < |xs| - 1
      ensures Int32.InRange(xs[1..][i]) && Trim(pieces[1..][i]) == Dec(xs[1..][i])
    {
      assert xs[1..][i] == xs[i + 1] && pieces[1..][i] == pieces[i + 1];
    }
  }

  lemma {:induction false} ParseAllTrimmed(pieces: seq<string>, xs: seq<int>)
    requires TrimsToDecimals(pieces, xs)
    ensures ParseAll(pieces) == Some(xs)
  {
    if |xs| > 0 {
      TrimsToDecimalsTail(pieces, xs);
      ParseAllTrimmed(pieces[1..], xs[1..]);
      ParseIntDec(xs[0]);
      ParseAllCons(pieces, xs[0], xs[1..]);
      assert [xs[0]] + xs[1..] == xs;
    }
  }

  /** One piece that is not an `int` after trimming makes the whole list fail. */
  lemma {:induction false} ParseAllFailsAt(pieces: seq<string>, i: int)
    requires 0 <= i < |pieces| && ParseInt(Trim(pieces[i])).None?
    ensures ParseAll(pieces) == None
  {
    if i == 0 {
      ParseAllNoneHead(pieces);
    } else {
      assert pieces[1..][i - 1] == pieces[i];
      ParseAllFailsAt(pieces[1..], i - 1);
      ParseAllNoneTail(pieces);
    }
  }

  lemma {:induction false} JoinSnoc(parts: seq<string>, q: string)
    requires |parts| >= 1
    ensures Join(parts + [q]) == Join(parts) + "," + q
  {
    if |parts| > 1 {
      assert (parts + [q])[1..] == parts[1..] + [q];
      JoinSnoc(parts[1..], q);
    } else {
      assert (parts + [q])[1..] == [q];
    }
  }

  predicate CommaFree(parts: seq<string>) {
    forall i :: 0 <= i < |parts| ==> ',' !in parts[i]
  }

  /** `split(",")` undoes joining pieces without commas, as long as the last piece is
      not empty (an empty last piece would be dropped). */
  lemma SplitJoinPieces(parts: seq<string>)
    requires |parts| >= 1 && CommaFree(parts) && parts[|parts| - 1] != ""
    ensures JavaSplit(Join(parts)) == parts
  {
    var text := Join(parts);
    SplitJoin(parts);
    if |parts| == 1 {
      assert text == parts[0];
    } else {
      assert text == parts[0] + "," + Join(parts[1..]);
      assert text[|parts[0]|] == ',';
    }
  }

  /** Configuration text made of comma-separated pieces, each a decimal `int` with any
      blank padding, parses to those `int`s. */
  lemma ParseJoinTrimmed(pieces: seq<string>, xs: seq<int>)
    requires |xs| >= 1 && CommaFree(pieces) && TrimsToDecimals(pieces, xs)
    ensures ParsePointsSequence(Join(pieces)) == Some(xs)
  {
    var last := pieces[|pieces| - 1];
    assert Trim(last) == Dec(xs[|xs| - 1]);
    assert last != "";
    SplitJoinPieces(pieces);
    ParseAllTrimmed(pieces, xs);
  }

  lemma {:induction false} DecAllTrims(xs: seq<int>)
    requires forall i :: 0 <= i < |xs| ==> Int32.InRange(xs[i])
    ensures CommaFree(DecAll(xs)) && TrimsToDecimals(DecAll(xs), xs)
  {
    var parts := DecAll(xs);
    forall i | 0 <= i < |xs| ensures ',' !in parts[i] && Trim(parts[i]) == Dec(xs[i]) {
      DecAllAt(xs, i);
      DecShape(xs[i]);
      TrimPadded("", Dec(xs[i]), "");
      assert "" + Dec(xs[i]) + "" == Dec(xs[i]);
    }
  }

  /** Round trip: the configuration text written for a non-empty list of `int`s parses
      back to that list. */
  lemma ParseJoinRoundTrip(xs: seq<int>)
    requires |xs| >= 1
    requires forall i :: 0 <= i < |xs| ==> Int32.InRange(xs[i])
    ensures ParsePointsSequence(Join(DecAll(xs))) == Some(xs)
  {
    DecAllTrims(xs);
    ParseJoinTrimmed(DecAll(xs), xs);
  }

  lemma SplitAllTrailingComma(parts: seq<string>)
    requires |parts| >= 1 && CommaFree(parts)
    ensures SplitAll(Join(parts) + ",") == parts + [""]
  {
    var padded := parts + [""];
    JoinSnoc(parts, "");
    assert Join(parts) + "," + "" == Join(parts) + ",";
    forall i | 0 <= i < |padded| ensures ',' !in padded[i] {
      if i < |parts| {
        assert padded[i] == parts[i];
      }
    }
    SplitJoin(padded);
  }

  lemma DropTrailingEmptyPiece(parts: seq<string>)
    requires |parts| >= 1 && parts[|parts| - 1] != ""
    ensures DropTrailingEmpty(parts + [""]) == parts
  {
    assert (parts + [""])[..|parts|] == parts;
  }

  /** `split(",")` drops the empty piece after a trailing comma. */
  lemma SplitTrailingComma(parts: seq<string>)
    requires |parts| >= 1 && CommaFree(parts) && parts[|parts| - 1] != ""
    ensures JavaSplit(Join(parts) + ",") == parts
  {
    var text := Join(parts) + ",";
    SplitAllTrailingComma(parts);
    DropTrailingEmptyPiece(parts);
    assert text[|text| - 1] == ',';
  }

  /** A trailing comma is ignored: "10,20," reads as "10,20". */
  lemma TrailingCommaIgnored(pieces: seq<string>, xs: seq<int>)
    requires |xs| >= 1 && CommaFree(pieces) && TrimsToDecimals(pieces, xs)
    ensures ParsePointsSequence(Join(pieces) + ",") == Some(xs)
  {
    var last := pieces[|pieces| - 1];
    assert Trim(last) == Dec(xs[|xs| - 1]);
    assert last != "";
    SplitTrailingComma(pieces);
    ParseAllTrimmed(pieces, xs);
  }

  /** An empty piece between two commas makes start-up fail: "10,,20". */
  lemma EmptyMiddlePieceFails(p: string, q: string)
    requires ',' !in p && ',' !in q && q != ""
    ensures ParsePointsSequence(p + ",," + q) == None
  {
    var text := p + ",," + q;
    assert text == p + "," + ("" + "," + q);
    SplitPrefix(p, "" + "," + q);
    SplitPrefix("", q);
    SplitPrefix(q, "");
    assert SplitAll(text) == [p, "", q];
    assert text[|p|] == ',';
    assert JavaSplit(text) == [p, "", q];
    assert Trim("") == "";
    ParseAllFailsAt([p, "", q], 1);
  }

  /** A number outside the `int` range, above or below, makes start-up fail. */
  lemma OutOfRangeFails(n: int)
    requires !Int32.InRange(n)
    ensures ParsePointsSequence(Dec(n)) == None
  {
    var text := Dec(n);
    DecShape(n);
    TrimPadded("", text, "");
    assert "" + text + "" == text;
    ParseIntRejectsOverflow(n);
    SinglePieceFails(text);
  }

  /** Text without a comma is one piece, and start-up fails when that piece does not parse. */
  lemma SinglePieceFails(text: string)
    requires ',' !in text && ParseInt(Trim(text)).None?
    ensures ParsePointsSequence(text) == None
  {
    ParseAllFailsAt([text], 0);
  }

  /** An empty configuration value makes start-up fail: `split` returns one empty piece. */
  lemma EmptyTextFails()
    ensures ParsePointsSequence("") == None
  {
    assert JavaSplit("") == [""];
    assert Trim("") == "";
    ParseAllFailsAt([""], 0);
  }

  /** `@Value` configuration, then `init()` assigning the parsed schedule once. */
  class CheckinConfig {
    const pointsSequenceStr: string
    const maxPerMonth: int
    var pointsSequence: seq<int>

    constructor (pointsSequenceStr: string, maxPerMonth: int)
      requires Int32.InRange(maxPerMonth)
      ensures this.pointsSequenceStr == pointsSequenceStr && this.maxPerMonth == maxPerMonth
      ensures pointsSequence == []
    {
      this.pointsSequenceStr := pointsSequenceStr;
      this.maxPerMonth := maxPerMonth;
      pointsSequence := [];
    }

    /** `init()`: false stands for the exception that aborts start-up. Any cap and any
        values, negative ones included, are accepted. */
    method Init() returns (ok: bool)
      modifies this
      ensures ok <==> ParsePointsSequence(pointsSequenceStr).Some?
      ensures ok ==> pointsSequence == ParsePointsSequence(pointsSequenceStr).value
      ensures !ok ==> pointsSequence == old(pointsSequence)
    {
      var parsed := ParsePointsSequence(pointsSequenceStr);
      ok := parsed.Some?;
      if ok {
        pointsSequence := parsed.value;
      }
    }
  }
}
