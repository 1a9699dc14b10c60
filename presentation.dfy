/**
 * The data `print_anomalies(anomalies, show_debug, show_color)` prints:
 * the anomalies grouped by kind (CHANGE, WARNING, and DEBUG only when asked
 * for), the one-line summary with its counts and plurals, and the lines that
 * follow it (warnings, then changes, then debug messages). Colour escape
 * codes are not modelled; the text is that of `show_color=False`.
 */
module Presentation {
  import opened Commands

  /** `list(filter(lambda x: x[0] == kind, anomalies))`. */
  function OfKind(anomalies: seq<Anomaly>, kind: Kind): (r: seq<Anomaly>)
    ensures |r| <= |anomalies|
    ensures forall i :: 0 <= i < |r| ==> r[i].kind == kind
  {
    if anomalies == [] then [] else Keep(anomalies[0], kind) + OfKind(anomalies[1..], kind)
  }

  /** `[a]` when `a` is of `kind`, else nothing. */
  function Keep(a: Anomaly, kind: Kind): seq<Anomaly>
  {
    if a.kind == kind then [a] else []
  }

  /** Grouping keeps relative order: filtering a concatenation filters each part in turn. */
  lemma {:induction false} OfKindAppend(a: seq<Anomaly>, b: seq<Anomaly>, kind: Kind)
    ensures OfKind(a + b, kind) == OfKind(a, kind) + OfKind(b, kind)
  {
    if a == [] {
      assert a + b == b;
    } else {
      assert (a + b)[0] == a[0];
      assert (a + b)[1..] == a[1..] + b;
      OfKindAppend(a[1..], b, kind);
      assert Keep(a[0], kind) + (OfKind(a[1..], kind) + OfKind(b, kind))
          == (Keep(a[0], kind) + OfKind(a[1..], kind)) + OfKind(b, kind);
    }
  }

  /** Filtering a list whose members all have one kind by that kind keeps it whole. */
  lemma {:induction false} OfKindKeepsUniform(xs: seq<Anomaly>, kind: Kind)
    requires forall i :: 0 <= i < |xs| ==> xs[i].kind == kind
    ensures OfKind(xs, kind) == xs
  {
    if xs != [] {
      OfKindKeepsUniform(xs[1..], kind);
      assert xs == [xs[0]] + xs[1..];
    }
  }

  /** A list of warnings holds no anomaly of another kind. */
  lemma {:induction false} OfKindKinds(xs: seq<Anomaly>, kind: Kind)
    requires kind != Warning
    requires forall i :: 0 <= i < |xs| ==> xs[i].kind == Warning
    ensures OfKind(xs, kind) == []
  {
    if xs != [] {
      OfKindKinds(xs[1..], kind);
    }
  }

  /** A group holds every anomaly of its kind, as often as it occurs, and no other. */
  lemma {:induction false} OfKindCounts(anomalies: seq<Anomaly>, kind: Kind, a: Anomaly)
    ensures multiset(OfKind(anomalies, kind))[a] == if a.kind == kind then multiset(anomalies)[a] else 0
  {
    if anomalies != [] {
      assert anomalies == [anomalies[0]] + anomalies[1..];
      OfKindCounts(anomalies[1..], kind, a);
    }
  }

  /** The three groups together are a rearrangement of the anomalies. */
  lemma OfKindPartition(anomalies: seq<Anomaly>)
    ensures multiset(OfKind(anomalies, Change)) + multiset(OfKind(anomalies, Warning))
            + multiset(OfKind(anomalies, Debug)) == multiset(anomalies)
    ensures |OfKind(anomalies, Change)| + |OfKind(anomalies, Warning)| + |OfKind(anomalies, Debug)| == |anomalies|
  {
    var total := multiset(OfKind(anomalies, Change)) + multiset(OfKind(anomalies, Warning))
                 + multiset(OfKind(anomalies, Debug));
    forall a ensures total[a] == multiset(anomalies)[a] {
      OfKindCounts(anomalies, Change, a);
      OfKindCounts(anomalies, Warning, a);
      OfKindCounts(anomalies, Debug, a);
    }
    assert total == multiset(anomalies);
    assert |total| == |multiset(anomalies)|;
  }

  /** `"s" if n != 1 else ""`. */
  function Plural(n: nat): (suffix: string)
    ensures suffix == "s" <==> n != 1
    ensures suffix == "" <==> n == 1
  {
    if n != 1 then "s" else ""
  }

  function DigitChar(d: nat): (c: char)
    requires d < 10
    ensures '0' <= c <= '9'
    ensures DigitValue(c) == d
  {
    ('0' as int + d) as char
  }

  function DigitValue(c: char): nat
  {
    if '0' <= c <= '9' then (c as int - '0' as int) as nat else 0
  }

  /** `"%i" % n` for a count: its decimal digits, without leading zeros. */
  function Decimal(n: nat): (s: string)
    ensures |s| >= 1
    ensures forall i :: 0 <= i < |s| ==> '0' <= s[i] <= '9'
    ensures |s| > 1 ==> s[0] != '0'
  {
    if n < 10 then [DigitChar(n)] else Decimal(n / 10) + [DigitChar(n % 10)]
  }

  /** Reading a string of decimal digits back as a number. */
  function ParseDecimal(s: string): nat
  {
    if s == [] then 0 else ParseDecimal(s[..|s| - 1]) * 10 + DigitValue(s[|s| - 1])
  }

  /** The printed count reads back as the count itself. */
  lemma {:induction false} DecimalRoundTrip(n: nat)
    ensures ParseDecimal(Decimal(n)) == n
  {
    var s := Decimal(n);
    if n < 10 {
      assert s[..0] == [];
    } else {
      DecimalRoundTrip(n / 10);
      assert s[..|s| - 1] == Decimal(n / 10);
    }
  }

  /** `" and %i debug message%s"` when there is at least one debug message, else nothing. */
  function DebugClause(ld: nat): (clause: string)
    ensures clause == "" <==> ld == 0
  {
    if ld > 0 then " and " + Decimal(ld) + " debug message" + Plural(ld) else ""
  }

  /**
   * The debug clause, when present, reads `" and "`, then the debug count, which
   * reads back as `ld`, then `" debug message"` and an `s` exactly when `ld` is not 1.
   */
  lemma DebugClauseCounts(ld: nat)
    ensures var clause := DebugClause(ld);
      ld > 0 ==>
        && 5 + |Decimal(ld)| + 14 <= |clause|
        && clause[..5] == " and "
        && ParseDecimal(clause[5..5 + |Decimal(ld)|]) == ld
        && clause[5 + |Decimal(ld)|..5 + |Decimal(ld)| + 14] == " debug message"
        && (clause[|clause| - 1] == 's' <==> ld != 1)
  {
    if ld > 0 {
      DecimalRoundTrip(ld);
      assert DebugClause(ld) == " and " + (Decimal(ld) + (" debug message" + Plural(ld)));
      ClauseLayout(DebugClause(ld), Decimal(ld), Plural(ld), ld);
    }
  }

  /** A clause laid out as `" and %s debug message%s"` with a count and its plural suffix. */
  lemma ClauseLayout(clause: string, d: string, p: string, ld: nat)
    requires clause == " and " + (d + (" debug message" + p))
    requires ParseDecimal(d) == ld
    requires (p == "s" <==> ld != 1) && (p == "" <==> ld == 1)
    ensures 5 + |d| + 14 <= |clause|
    ensures clause[..5] == " and "
    ensures ParseDecimal(clause[5..5 + |d|]) == ld
    ensures clause[5 + |d|..5 + |d| + 14] == " debug message"
    ensures clause[|clause| - 1] == 's' <==> ld != 1
  {
    var t1 := " debug message" + p;
    var t0 := d + t1;
    assert clause[0..] == " and " + t0;
    Peel(clause, 0, " and ", t0);
    Peel(clause, 5, d, t1);
    Peel(clause, 5 + |d|, " debug message", p);
    assert clause[|clause| - 1] == t1[|t1| - 1];
  }

  /** `"%i change%s detected (%i warning%s%s)"`. */
  function Header(la: nat, lw: nat, ld: nat): (line: string)
    ensures |Decimal(la)| < |line|
    ensures line[..|Decimal(la)|] == Decimal(la)
    ensures line[|Decimal(la)|] == ' '
    ensures line[|line| - 1] == ')'
  {
    var rest := " change" + Counts(la, lw, ld);
    assert (Decimal(la) + rest)[|Decimal(la)|] == rest[0];
    Decimal(la) + rest
  }

  /** The part of the summary line after `"%i change"`. */
  function Counts(la: nat, lw: nat, ld: nat): string
  {
    Plural(la) + (" detected (" + (Decimal(lw) + (" warning" + (Plural(lw) + (DebugClause(ld) + ")")))))
  }

  /**
   * The summary line opens with the number of changes, followed by a space:
   * the short form of the first facts of `HeaderCounts`.
   */
  lemma HeaderOpensWithChangeCount(la: nat, lw: nat, ld: nat)
    ensures |Decimal(la)| < |Header(la, lw, ld)|
    ensures ParseDecimal(Header(la, lw, ld)[..|Decimal(la)|]) == la
    ensures Header(la, lw, ld)[|Decimal(la)|] == ' '
  {
    assert Header(la, lw, ld)[..|Decimal(la)|] == Decimal(la);
    DecimalRoundTrip(la);
  }

  /**
   * Every count and plural of the summary line sits where the format puts it:
   * the change count, `" change"`, an `s` exactly when that count is not 1,
   * the warning count, `" warning"`, an `s` exactly when that count is not 1,
   * then the debug clause and `)`.
   */
  lemma HeaderCounts(la: nat, lw: nat, ld: nat)
    ensures SummaryParts(Header(la, lw, ld), Decimal(la), Plural(la), Decimal(lw), Plural(lw), DebugClause(ld) + ")", la, lw)
  {
    DebugClauseOpens(ld);
    DecimalRoundTrip(la);
    DecimalRoundTrip(lw);
    LayoutCounts(Header(la, lw, ld), Decimal(la), Plural(la), Decimal(lw), Plural(lw), DebugClause(ld) + ")", la, lw);
  }

  /**
   * `h` is laid out as `"%s change%s detected (%s warning%s%s"` with the parts
   * `a`, `p1`, `b`, `p2`, `t5`: `a` and `b` read back as `la` and `lw`, and the
   * character where each plural suffix goes is `s` exactly when its count is not 1.
   */
  ghost predicate SummaryParts(h: string, a: string, p1: string, b: string, p2: string, t5: string, la: nat, lw: nat)
  {
    var c := |a| + 7;
    var w := c + |p1| + 11;
    var e := w + |b| + 8;
    && e + |p2| < |h|
    && h[..|a|] == a
    && h[|a|..c] == " change"
    && (h[c] == 's' <==> la != 1)
    && h[w..w + |b|] == b
    && ParseDecimal(h[..|a|]) == la
    && ParseDecimal(h[w..w + |b|]) == lw
    && h[w + |b|..e] == " warning"
    && (h[e] == 's' <==> lw != 1)
    && h[e + |p2|..] == t5
  }

  /** A line built from those parts, with suffixes chosen by the counts, has that layout. */
  lemma LayoutCounts(h: string, a: string, p1: string, b: string, p2: string, t5: string, la: nat, lw: nat)
    requires h == a + (" change" + (p1 + (" detected (" + (b + (" warning" + (p2 + t5))))))
    requires (p1 == "s" <==> la != 1) && (p1 == "" <==> la == 1)
    requires (p2 == "s" <==> lw != 1) && (p2 == "" <==> lw == 1)
    requires |t5| > 0 && t5[0] != 's'
    requires ParseDecimal(a) == la && ParseDecimal(b) == lw
    ensures SummaryParts(h, a, p1, b, p2, t5, la, lw)
  {
    SummaryLayout(h, a, p1, b, p2, t5);
    var c := |a| + 7;
    var e := c + |p1| + 11 + |b| + 8;
    assert h[e + |p2|] == t5[0];
    if la != 1 { assert h[c] == h[c..c + |p1|][0]; } else { assert h[c] == h[c + |p1|]; }
    if lw != 1 { assert h[e] == h[e..e + |p2|][0]; }
    assert h[..|a|] == a by { SplitAt(a, " change" + (p1 + (" detected (" + (b + (" warning" + (p2 + t5)))))); }
  }

  /** The closing part of the summary line never starts with `s`: it opens with a space or is `)`. */
  lemma DebugClauseOpens(ld: nat)
    ensures (DebugClause(ld) + ")")[0] in {' ', ')'}
  {
    if ld > 0 {
      assert (DebugClause(ld) + ")")[0] == " and "[0];
    }
  }

  /** Where each part of a summary line laid out as `"%s change%s detected (%s warning%s%s"` sits. */
  lemma SummaryLayout(h: string, a: string, p1: string, b: string, p2: string, t5: string)
    requires h == a + (" change" + (p1 + (" detected (" + (b + (" warning" + (p2 + t5))))))
    ensures var c := |a| + 7;
      var w := c + |p1| + 11;
      var e := w + |b| + 8;
      && e + |p2| <= |h|
      && h[|a|..c] == " change"
      && h[c..c + |p1|] == p1
      && h[c + |p1|..w] == " detected ("
      && h[w..w + |b|] == b
      && h[w + |b|..e] == " warning"
      && h[e..e + |p2|] == p2
      && h[e + |p2|..] == t5
      && h[c + |p1|] == ' '
  {
    var t4 := p2 + t5;
    var t3 := " warning" + t4;
    var t2 := b + t3;
    var t1 := " detected (" + t2;
    var t0 := p1 + t1;
    var r0 := " change" + t0;
    var c := |a| + 7;
    var w := c + |p1| + 11;
    var e := w + |b| + 8;
    assert h[0..] == a + r0;
    Peel(h, 0, a, r0);
    Peel(h, |a|, " change", t0);
    Peel(h, c, p1, t1);
    Peel(h, c + |p1|, " detected (", t2);
    Peel(h, w, b, t3);
    Peel(h, w + |b|, " warning", t4);
    Peel(h, e, p2, t5);
    assert h[c + |p1|] == h[c + |p1|..w][0];
  }

  /** A suffix of `h` that is `x + rest` starts with `x`, and `rest` follows it. */
  lemma Peel(h: string, i: nat, x: string, rest: string)
    requires i <= |h| && h[i..] == x + rest
    ensures i + |x| <= |h| && h[i..i + |x|] == x && h[i + |x|..] == rest
  {
    SplitAt(x, rest);
    TakeOfDrop(h, i, |x|);
    DropTwice(h, i, |x|);
  }

  /** A concatenation splits back into its two parts. */
  lemma SplitAt(x: string, y: string)
    ensures (x + y)[..|x|] == x && (x + y)[|x|..] == y
  {
  }

  /** Dropping `i` characters and then `j` drops `i + j`. */
  lemma DropTwice(s: string, i: nat, j: nat)
    requires i + j <= |s|
    ensures s[i..][j..] == s[i + j..]
  {
  }

  /** The first `n` characters after position `i`. */
  lemma TakeOfDrop(s: string, i: nat, n: nat)
    requires i + n <= |s|
    ensures s[i..][..n] == s[i..i + n]
  {
  }

  /** Everything `print_anomalies` would output, as data. */
  datatype Report = Report(changes: seq<Anomaly>, warnings: seq<Anomaly>, debug: seq<Anomaly>,
                           lines: seq<string>)

  /** One printed line per anomaly of a group, each message behind `marker`. */
  function Marked(marker: string, group: seq<Anomaly>): (lines: seq<string>)
    ensures |lines| == |group|
    ensures forall i :: 0 <= i < |group| ==> lines[i] == marker + group[i].message
  {
    seq(|group|, i requires 0 <= i < |group| => marker + group[i].message)
  }

  /** The summary line, then the warnings, the changes and the debug messages. */
  function Lines(changes: seq<Anomaly>, warnings: seq<Anomaly>, debug: seq<Anomaly>): (lines: seq<string>)
    ensures |lines| == 1 + |warnings| + |changes| + |debug|
    ensures lines[0] == Header(|changes|, |warnings|, |debug|)
    ensures lines[1..] == Marked("! ", warnings) + Marked("+ ", changes) + Marked("- ", debug)
  {
    var body := Marked("! ", warnings) + Marked("+ ", changes) + Marked("- ", debug);
    assert ([Header(|changes|, |warnings|, |debug|)] + body)[1..] == body;
    [Header(|changes|, |warnings|, |debug|)] + body
  }

  /** The grouping, the counts and the printed lines of `print_anomalies`. */
  function PrintAnomalies(anomalies: seq<Anomaly>, showDebug: bool): (r: Report)
    ensures r.changes == OfKind(anomalies, Change)
    ensures r.warnings == OfKind(anomalies, Warning)
    ensures showDebug ==> r.debug == OfKind(anomalies, Debug)
    ensures showDebug ==> multiset(r.changes) + multiset(r.warnings) + multiset(r.debug) == multiset(anomalies)
    ensures forall i :: 0 <= i < |r.changes| ==> r.changes[i].kind == Change
    ensures forall i :: 0 <= i < |r.warnings| ==> r.warnings[i].kind == Warning
    ensures forall i :: 0 <= i < |r.debug| ==> r.debug[i].kind == Debug
    ensures !showDebug ==> r.debug == []
    ensures showDebug ==> |r.changes| + |r.warnings| + |r.debug| == |anomalies|
    ensures r.lines == Lines(r.changes, r.warnings, r.debug)
  {
    var changes := OfKind(anomalies, Change);
    var warnings := OfKind(anomalies, Warning);
    var debug := if showDebug then OfKind(anomalies, Debug) else [];
    OfKindPartition(anomalies);
    Report(changes, warnings, debug, Lines(changes, warnings, debug))
  }

  /**
   * Grouping commutes with concatenation: the report of earlier anomalies
   * followed by later ones lists each group's earlier members first.
   */
  lemma PrintAnomaliesAppend(a: seq<Anomaly>, b: seq<Anomaly>, showDebug: bool)
    ensures PrintAnomalies(a + b, showDebug).warnings
            == PrintAnomalies(a, showDebug).warnings + PrintAnomalies(b, showDebug).warnings
    ensures PrintAnomalies(a + b, showDebug).changes
            == PrintAnomalies(a, showDebug).changes + PrintAnomalies(b, showDebug).changes
    ensures PrintAnomalies(a + b, showDebug).debug
            == PrintAnomalies(a, showDebug).debug + PrintAnomalies(b, showDebug).debug
  {
    OfKindAppend(a, b, Warning);
    OfKindAppend(a, b, Change);
    OfKindAppend(a, b, Debug);
  }
}
