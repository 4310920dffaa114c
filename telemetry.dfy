/**
 * How the controller reads the textual replies of nvidia-settings: the
 * utilization string, the temperature, the speed confirmed after an
 * assignment and the fan-control mode read back at startup.
 */
module Telemetry {
  import opened Wrappers
  import opened PyStr

  // ---------------------------------------------------------------- utilization

  /** get_utilization: strip(), then remove every space, then each '=' becomes ': '. */
  function UtilizationText(raw: string): (r: string)
    ensures '=' !in r
  {
    ReplaceRemoves(Replace(Strip(raw, Whitespace), ' ', ""), '=', ": ");
    Replace(Replace(Strip(raw, Whitespace), ' ', ""), '=', ": ")
  }

  /** s.split()[1], or None where Python raises IndexError. */
  function SecondWord(s: string): (r: Option<string>)
    ensures r.Some? ==> r.value != [] && NoneIn(r.value, Whitespace)
  {
    var w := Words(s);
    if |w| < 2 then None else Some(w[1])
  }

  /**
   * The four utilization figures the main loop puts on screen: the text is
   * split at ',' and the second word of each of the first four pieces is
   * taken; None where an index is out of range (an IndexError).
   */
  function UtilizationShown(raw: string): (r: Option<seq<string>>)
    ensures r.Some? ==> |r.value| == 4
    ensures r.Some? ==> forall i :: 0 <= i < 4 ==> r.value[i] != [] && NoneIn(r.value[i], Whitespace)
  {
    var x := Split(UtilizationText(raw), ',');
    if |x| < 4 then None
    else
      var a, b, c, d := SecondWord(x[0]), SecondWord(x[1]), SecondWord(x[2]), SecondWord(x[3]);
      if a.None? || b.None? || c.None? || d.None? then None
      else Some([a.value, b.value, c.value, d.value])
  }

  /** One "name=value" entry of the GPUUtilization reply. */
  datatype Field = Field(name: string, value: string)

  /** A name or value as the utility prints it: no whitespace, ',' or '='. */
  predicate Token(s: string)
  {
    s != [] && NoneIn(s, Whitespace) && ',' !in s && '=' !in s
  }

  predicate Tokens(fs: seq<Field>)
  {
    forall i :: 0 <= i < |fs| ==> Token(fs[i].name) && Token(fs[i].value)
  }

  /** The reply "graphics=5, memory=3, video=0, PCIe=0" for a list of entries. */
  function UtilizationReply(fs: seq<Field>): string
    requires |fs| > 0
  {
    var first := fs[0].name + "=" + fs[0].value;
    if |fs| == 1 then first else first + ", " + UtilizationReply(fs[1..])
  }

  /** The entry after the transform: "name: value". */
  function Item(f: Field): string
  {
    f.name + ": " + f.value
  }

  function Items(fs: seq<Field>): (r: seq<string>)
    ensures |r| == |fs| && forall i :: 0 <= i < |fs| ==> r[i] == Item(fs[i])
  {
    if fs == [] then [] else [Item(fs[0])] + Items(fs[1..])
  }

  lemma {:induction false} ReplyEnds(fs: seq<Field>)
    requires |fs| > 0 && Tokens(fs)
    ensures var r := UtilizationReply(fs); r != [] && r[0] !in Whitespace && r[|r| - 1] !in Whitespace
  {
    var f := fs[0];
    var first := f.name + "=" + f.value;
    assert first[0] == f.name[0];
    if |fs| == 1 {
      assert first[|first| - 1] == f.value[|f.value| - 1];
    } else {
      ReplyEnds(fs[1..]);
      var rest := UtilizationReply(fs[1..]);
      var r := first + ", " + rest;
      assert r[|r| - 1] == rest[|rest| - 1];
      assert r[0] == first[0];
    }
  }

  lemma NoSpace(s: string)
    requires NoneIn(s, Whitespace)
    ensures ' ' !in s
  {
    assert forall i :: 0 <= i < |s| ==> s[i] != ' ';
  }

  /** Dropping spaces and rewriting '=' turns "n=v" into "n: v". */
  lemma EntryTransform(f: Field)
    requires Token(f.name) && Token(f.value)
    ensures Replace(Replace(f.name + "=" + f.value, ' ', ""), '=', ": ") == Item(f)
  {
    NoSpace(f.name);
    NoSpace(f.value);
    var e := f.name + "=" + f.value;
    assert ' ' !in e;
    ReplaceAbsent(e, ' ', "");
    ReplaceAppend(f.name + "=", f.value, '=', ": ");
    ReplaceAppend(f.name, "=", '=', ": ");
    ReplaceAbsent(f.name, '=', ": ");
    ReplaceAbsent(f.value, '=', ": ");
    assert Replace("=", '=', ": ") == ": ";
  }

  lemma SeparatorSpaceDropped(rest: string)
    ensures Replace(", " + rest, ' ', "") == "," + Replace(rest, ' ', "")
  {
    ReplaceAppend(", ", rest, ' ', "");
    assert Replace(", ", ' ', "") == "," by {
      assert ", "[1..] == " " && " "[1..] == [];
    }
  }

  lemma SeparatorKept(rest: string)
    ensures Replace("," + rest, '=', ": ") == "," + Replace(rest, '=', ": ")
  {
    var s := "," + rest;
    assert s[0] == ',' && s[1..] == rest;
  }

  lemma JoinCons(parts: seq<string>, sep: char)
    requires |parts| >= 2
    ensures Join(parts, sep) == parts[0] + ([sep] + Join(parts[1..], sep))
  {
  }

  /** After the transform the reply is the items joined by ','. */
  lemma {:induction false} ReplyTransform(fs: seq<Field>)
    requires |fs| > 0 && Tokens(fs)
    ensures Replace(Replace(UtilizationReply(fs), ' ', ""), '=', ": ") == Join(Items(fs), ',')
  {
    var f := fs[0];
    var first := f.name + "=" + f.value;
    EntryTransform(f);
    if |fs| > 1 {
      var rest := UtilizationReply(fs[1..]);
      assert UtilizationReply(fs) == first + (", " + rest);
      ReplaceAppend(first, ", " + rest, ' ', "");
      SeparatorSpaceDropped(rest);
      var first1 := Replace(first, ' ', "");
      var r1 := Replace(rest, ' ', "");
      ReplaceAppend(first1, "," + r1, '=', ": ");
      SeparatorKept(r1);
      ReplyTransform(fs[1..]);
      var items := Items(fs);
      assert items[1..] == Items(fs[1..]);
      JoinCons(items, ',');
    }
  }

  /** Split undoes Join when no part holds the separator. */
  lemma {:induction false} SplitJoin(parts: seq<string>, sep: char)
    requires |parts| > 0 && forall i :: 0 <= i < |parts| ==> sep !in parts[i]
    ensures Split(Join(parts, sep), sep) == parts
  {
    if |parts| == 1 {
      SplitNone(parts[0], sep);
    } else {
      SplitJoin(parts[1..], sep);
      SplitCons(parts[0], Join(parts[1..], sep), sep);
      assert [parts[0]] + parts[1..] == parts;
    }
  }

  lemma ItemsNoComma(fs: seq<Field>)
    requires Tokens(fs)
    ensures forall i :: 0 <= i < |fs| ==> ',' !in Items(fs)[i]
  {
    forall i | 0 <= i < |fs| ensures ',' !in Items(fs)[i] {
      assert Items(fs)[i] == fs[i].name + ": " + fs[i].value;
    }
  }

  /** "n: v".split() is ["n:", "v"], so its second word is the value. */
  lemma ItemSecondWord(f: Field)
    requires Token(f.name) && Token(f.value)
    ensures SecondWord(Item(f)) == Some(f.value)
  {
    var n := f.name + ":";
    assert NoneIn(n, Whitespace) by {
      forall i | 0 <= i < |n| ensures n[i] !in Whitespace {
        if i < |f.name| { assert n[i] == f.name[i]; }
      }
    }
    assert Item(f) == n + (" " + f.value);
    WordsCons(n, " " + f.value);
    WordsSkip(" ", f.value);
    assert NoneIn(f.value, Whitespace);
    WordsCons(f.value, []);
    assert f.value + [] == f.value;
  }

  /** The transformed reply, split at ',', gives back one "name: value" item per entry. */
  lemma UtilizationPieces(lead: string, fs: seq<Field>, trail: string)
    requires |fs| > 0 && Tokens(fs)
    requires AllIn(lead, Whitespace) && AllIn(trail, Whitespace)
    ensures Split(UtilizationText(lead + UtilizationReply(fs) + trail), ',') == Items(fs)
  {
    ReplyEnds(fs);
    StripPadded(lead, UtilizationReply(fs), trail, Whitespace);
    ReplyTransform(fs);
    ItemsNoComma(fs);
    SplitJoin(Items(fs), ',');
  }

  /**
   * A well-formed reply with at least four entries, whatever whitespace
   * surrounds it, shows the values of its first four entries.
   */
  lemma UtilizationRoundTrip(lead: string, fs: seq<Field>, trail: string)
    requires |fs| >= 4 && Tokens(fs)
    requires AllIn(lead, Whitespace) && AllIn(trail, Whitespace)
    ensures UtilizationShown(lead + UtilizationReply(fs) + trail)
            == Some([fs[0].value, fs[1].value, fs[2].value, fs[3].value])
  {
    UtilizationPieces(lead, fs, trail);
    ItemSecondWord(fs[0]);
    ItemSecondWord(fs[1]);
    ItemSecondWord(fs[2]);
    ItemSecondWord(fs[3]);
  }

  /** A well-formed reply with fewer than four entries makes the main loop raise IndexError. */
  lemma UtilizationTooShort(lead: string, fs: seq<Field>, trail: string)
    requires 0 < |fs| < 4 && Tokens(fs)
    requires AllIn(lead, Whitespace) && AllIn(trail, Whitespace)
    ensures UtilizationShown(lead + UtilizationReply(fs) + trail) == None
  {
    UtilizationPieces(lead, fs, trail);
  }

  // ---------------------------------------------------------------- temperature

  /** get_temp: int() of the whole reply. */
  function Temperature(reply: string): Option<int>
  {
    ParseInt(reply)
  }

  /** A reading printed as "55\n" (or with any surrounding whitespace) is read back exactly. */
  lemma TemperatureRoundTrip(lead: string, t: int, trail: string)
    requires AllIn(lead, Whitespace) && AllIn(trail, Whitespace)
    ensures Temperature(lead + Str(t) + trail) == Some(t)
  {
    ParseIntStr(lead, t, trail);
  }

  // ---------------------------------------------------------------- set_speed

  /** set_speed: int(x[x.rfind(' ') + 1:x.rfind('.')]) of the assignment reply x. */
  function ConfirmedSpeed(reply: string): Option<int>
  {
    ParseInt(Slice(reply, RFind(reply, ' ') + 1, RFind(reply, '.')))
  }

  /** With the last ' ' at p before the last '.' at q, the confirmed speed is int() of what lies strictly between. */
  lemma ConfirmedSpeedBetween(reply: string, p: nat, q: nat)
    requires p < q < |reply| && reply[p] == ' ' && reply[q] == '.'
    requires ' ' !in reply[p + 1..] && '.' !in reply[q + 1..]
    ensures ConfirmedSpeed(reply) == ParseInt(reply[p + 1..q])
  {
    RFindAt(reply, ' ', p);
    RFindAt(reply, '.', q);
    var s := Slice(reply, p + 1, q);
    assert s == reply[p + 1..q];
  }

  /** Without any '.', rfind gives -1 and the slice stops one character short of the end. */
  lemma ConfirmedSpeedWithoutDot(reply: string, p: nat)
    requires p < |reply| - 1 && reply[p] == ' ' && ' ' !in reply[p + 1..]
    requires '.' !in reply
    ensures ConfirmedSpeed(reply) == ParseInt(reply[p + 1..|reply| - 1])
  {
    RFindAt(reply, ' ', p);
    RFindAbsent(reply, '.');
    var s := Slice(reply, p + 1, -1);
    assert s == reply[p + 1..|reply| - 1];
  }

  /** When the last '.' comes before the last ' ', the slice is empty and int('') raises ValueError. */
  lemma ConfirmedSpeedDotBeforeSpace(reply: string, p: nat, q: nat)
    requires q < p < |reply| && reply[p] == ' ' && reply[q] == '.'
    requires ' ' !in reply[p + 1..] && '.' !in reply[q + 1..]
    ensures ConfirmedSpeed(reply) == None
  {
    RFindAt(reply, ' ', p);
    RFindAt(reply, '.', q);
    assert Slice(reply, p + 1, q) == [];
    ParseIntEmpty();
  }

  /** A decimal rendering holds neither a space nor a dot. */
  lemma StrPlain(n: int)
    ensures ' ' !in Str(n) && '.' !in Str(n)
  {
    var m := if n < 0 then -n else n;
    var d := Decimal(m);
    assert forall i :: 0 <= i < |d| ==> IsDigit(d[i]);
    assert ' ' !in d && '.' !in d;
    if n < 0 {
      assert Str(n) == "-" + d;
    }
  }

  lemma ParseIntOfStr(n: int)
    ensures ParseInt(Str(n)) == Some(n)
  {
    ParseIntStr([], n, []);
    assert [] + Str(n) + [] == Str(n);
  }

  /** The positions of the separators in head + d + "." + suffix, seen from each side. */
  lemma ReplyShape(head: string, d: string, suffix: string)
    requires head != [] && head[|head| - 1] == ' '
    ensures var reply := head + d + ("." + suffix);
            var p, q := |head| - 1, |head| + |d|;
            reply[p] == ' ' && reply[p + 1..] == d + ("." + suffix)
            && reply[q] == '.' && reply[q + 1..] == suffix && reply[p + 1..q] == d
  {
  }

  /** "... assigned value 70." followed by a tail without ' ' or '.' confirms 70. */
  lemma ConfirmedSpeedRoundTrip(prefix: string, n: int, suffix: string)
    requires ' ' !in suffix && '.' !in suffix
    ensures ConfirmedSpeed(prefix + " " + Str(n) + "." + suffix) == Some(n)
  {
    var d := Str(n);
    var head := prefix + " ";
    var reply := head + d + ("." + suffix);
    assert prefix + " " + d + "." + suffix == reply;
    StrPlain(n);
    ReplyShape(head, d, suffix);
    var p, q := |head| - 1, |head| + |d|;
    assert ' ' !in d + ("." + suffix);
    ConfirmedSpeedBetween(reply, p, q);
    ParseIntOfStr(n);
  }

  // ---------------------------------------------------------------- fan-control mode

  /** The startup check: reply.strip('\n').strip(' ') == '1'. */
  predicate ModeIsManual(reply: string)
  {
    Strip(Strip(reply, {'\n'}), {' '}) == "1"
  }

  /** Newlines first, then spaces. */
  predicate LeadingPad(t: string)
  {
    exists k :: 0 <= k <= |t| && AllIn(t[..k], {'\n'}) && AllIn(t[k..], {' '})
  }

  /** Spaces first, then newlines. */
  predicate TrailingPad(t: string)
  {
    exists k :: 0 <= k <= |t| && AllIn(t[..k], {' '}) && AllIn(t[k..], {'\n'})
  }

  /** A '1' with newlines-then-spaces before it and spaces-then-newlines after it. */
  predicate ManualReply(reply: string)
  {
    exists p :: 0 <= p < |reply| && reply[p] == '1' && LeadingPad(reply[..p]) && TrailingPad(reply[p + 1..])
  }

  lemma Around(s: string, p: nat)
    requires p < |s|
    ensures s == s[..p] + [s[p]] + s[p + 1..]
  {
  }

  lemma SplitAt(s: string, k: nat)
    requires k <= |s|
    ensures s == s[..k] + s[k..]
  {
  }

  lemma Regroup(a: string, b: string, x: string, c: string, d: string)
    ensures (a + b) + x + (c + d) == a + (b + x + c) + d
  {
  }

  /** b + "1" + c starts and ends with something other than a newline when b and c are spaces. */
  lemma MidEnds(b: string, c: string)
    requires AllIn(b, {' '}) && AllIn(c, {' '})
    ensures var mid := b + "1" + c; mid != [] && mid[0] !in {'\n'} && mid[|mid| - 1] !in {'\n'}
  {
    var mid := b + "1" + c;
    if b != [] { assert mid[0] == b[0]; } else { assert mid[0] == '1'; }
    if c != [] { assert mid[|mid| - 1] == c[|c| - 1]; } else { assert mid[|mid| - 1] == '1'; }
  }

  lemma PaddedOne(a: string, b: string, c: string, d: string)
    requires AllIn(a, {'\n'}) && AllIn(b, {' '}) && AllIn(c, {' '}) && AllIn(d, {'\n'})
    ensures ModeIsManual(a + (b + "1" + c) + d)
  {
    MidEnds(b, c);
    StripPadded(a, b + "1" + c, d, {'\n'});
    StripPadded(b, "1", c, {' '});
  }

  lemma ManualReplyAccepted(reply: string)
    requires ManualReply(reply)
    ensures ModeIsManual(reply)
  {
    var p :| 0 <= p < |reply| && reply[p] == '1' && LeadingPad(reply[..p]) && TrailingPad(reply[p + 1..]);
    var before, after := reply[..p], reply[p + 1..];
    var kl :| 0 <= kl <= |before| && AllIn(before[..kl], {'\n'}) && AllIn(before[kl..], {' '});
    var kt :| 0 <= kt <= |after| && AllIn(after[..kt], {' '}) && AllIn(after[kt..], {'\n'});
    var a, b := before[..kl], before[kl..];
    var c, d := after[..kt], after[kt..];
    Around(reply, p);
    SplitAt(before, kl);
    SplitAt(after, kt);
    assert [reply[p]] == "1";
    Regroup(a, b, "1", c, d);
    PaddedOne(a, b, c, d);
  }

  /** Where the '1' of A + B + "1" + C + D sits, and what lies on either side of it. */
  lemma PiecesAround(s: string, a: string, b: string, c: string, d: string)
    requires s == a + (b + "1" + c) + d
    ensures |a| + |b| < |s| && s[|a| + |b|] == '1'
    ensures s[..|a| + |b|] == a + b && s[|a| + |b| + 1..] == c + d
  {
  }

  lemma LeadingPadOf(a: string, b: string)
    requires AllIn(a, {'\n'}) && AllIn(b, {' '})
    ensures LeadingPad(a + b)
  {
    var t := a + b;
    assert t[..|a|] == a && t[|a|..] == b;
  }

  lemma TrailingPadOf(c: string, d: string)
    requires AllIn(c, {' '}) && AllIn(d, {'\n'})
    ensures TrailingPad(c + d)
  {
    var t := c + d;
    assert t[..|c|] == c && t[|c|..] == d;
  }

  /** The pieces strip removes: the text is what was cut from the front, the kept part, and what was cut from the back. */
  lemma StripPieces(s: string, cs: set<char>) returns (a: string, d: string)
    ensures s == a + Strip(s, cs) + d
    ensures AllIn(a, cs) && AllIn(d, cs)
  {
    var l := LStrip(s, cs);
    LStripShape(s, cs);
    var r := RStrip(l, cs);
    RStripShape(l, cs);
    a, d := s[..|s| - |l|], l[|r|..];
    SplitAt(s, |s| - |l|);
    SplitAt(l, |r|);
    Regroup3(a, r, d);
  }

  lemma Regroup3(a: string, r: string, d: string)
    ensures a + (r + d) == a + r + d
  {
  }

  lemma ManualReplyOnly(reply: string)
    requires ModeIsManual(reply)
    ensures ManualReply(reply)
  {
    var a, b, c, d := ManualPieces(reply);
    ManualFromPieces(reply, a, b, c, d);
  }

  /** What the two strips cut away from an accepted reply: newlines, then spaces, on each side. */
  lemma ManualPieces(reply: string) returns (a: string, b: string, c: string, d: string)
    requires ModeIsManual(reply)
    ensures reply == a + (b + "1" + c) + d
    ensures AllIn(a, {'\n'}) && AllIn(b, {' '}) && AllIn(c, {' '}) && AllIn(d, {'\n'})
  {
    a, d := StripPieces(reply, {'\n'});
    b, c := StripPieces(Strip(reply, {'\n'}), {' '});
  }

  lemma ManualFromPieces(s: string, a: string, b: string, c: string, d: string)
    requires s == a + (b + "1" + c) + d
    requires AllIn(a, {'\n'}) && AllIn(b, {' '}) && AllIn(c, {' '}) && AllIn(d, {'\n'})
    ensures ManualReply(s)
  {
    PiecesAround(s, a, b, c, d);
    LeadingPadOf(a, b);
    TrailingPadOf(c, d);
    var p := |a| + |b|;
    assert s[p] == '1' && LeadingPad(s[..p]) && TrailingPad(s[p + 1..]);
  }

  /** The read-back counts as manual mode exactly for the replies of the form ManualReply describes. */
  lemma ModeIsManualIff(reply: string)
    ensures ModeIsManual(reply) <==> ManualReply(reply)
  {
    if ModeIsManual(reply) { ManualReplyOnly(reply); }
    if ManualReply(reply) { ManualReplyAccepted(reply); }
  }
}
