/**
 * Global labels: the flattening of the label map into one `k=v,...` string
 * (src/router.rs, `router`) and its injection into each metric line (`route`).
 */
module Labels {
  import opened Wrappers
  import opened Text

  /** One entry of the label map; the map's iteration order is given by the sequence. */
  type LabelPair = (string, string)

  function PairText(p: LabelPair): (r: string)
    ensures r != []
  {
    p.0 + "=" + p.1
  }

  /** The `k=v` text of every pair, in iteration order. */
  function PairTexts(pairs: seq<LabelPair>): seq<string> {
    seq(|pairs|, i requires 0 <= i < |pairs| => PairText(pairs[i]))
  }

  /** The closure of the fold: a comma goes in front of every pair but the first. */
  function FoldStep(acc: string, p: LabelPair): string {
    acc + (if acc == [] then "" else ",") + PairText(p)
  }

  function Fold(acc: string, pairs: seq<LabelPair>): string
    decreases |pairs|
  {
    if pairs == [] then acc else Fold(FoldStep(acc, pairs[0]), pairs[1..])
  }

  /** The label string `router` computes once, folding over the label map from `""`. */
  function FlattenLabels(pairs: seq<LabelPair>): string {
    Fold("", pairs)
  }

  lemma {:induction false} FoldFrom(acc: string, pairs: seq<LabelPair>)
    requires acc != []
    ensures Fold(acc, pairs) == if pairs == [] then acc else acc + "," + Join(PairTexts(pairs), ",")
    decreases |pairs|
  {
    if pairs != [] {
      var p, rest := pairs[0], pairs[1..];
      assert FoldStep(acc, p) == acc + "," + PairText(p);
      FoldFrom(FoldStep(acc, p), rest);
      assert PairTexts(pairs)[1..] == PairTexts(rest);
      if rest != [] {
        assert Join(PairTexts(pairs), ",") == PairText(p) + "," + Join(PairTexts(rest), ",");
      }
    }
  }

  /**
   * The flattened labels are the `k=v` texts joined by single commas: nothing
   * before the first pair, nothing after the last.
   */
  lemma FlattenIsJoin(pairs: seq<LabelPair>)
    ensures FlattenLabels(pairs) == Join(PairTexts(pairs), ",")
  {
    if pairs != [] {
      assert FoldStep("", pairs[0]) == PairText(pairs[0]);
      FoldFrom(PairText(pairs[0]), pairs[1..]);
      assert PairTexts(pairs)[1..] == PairTexts(pairs[1..]);
    }
  }

  lemma {:induction false} JoinNonEmpty(parts: seq<string>, sep: string)
    requires parts != [] && parts[0] != []
    ensures Join(parts, sep) != []
  {
  }

  /** The label string is empty exactly when the label map is. */
  lemma FlattenEmptyIff(pairs: seq<LabelPair>)
    ensures FlattenLabels(pairs) == "" <==> pairs == []
  {
    FlattenIsJoin(pairs);
    if pairs != [] {
      JoinNonEmpty(PairTexts(pairs), ",");
    }
  }

  /** A two-pair map flattens to `a=1,b=2`. */
  lemma FlattenTwoPairs(k1: string, v1: string, k2: string, v2: string)
    ensures FlattenLabels([(k1, v1), (k2, v2)]) == k1 + "=" + v1 + "," + k2 + "=" + v2
  {
    FlattenIsJoin([(k1, v1), (k2, v2)]);
    assert PairTexts([(k1, v1), (k2, v2)]) == [k1 + "=" + v1, k2 + "=" + v2];
  }

  /** No comma goes between the global labels and an empty label set. */
  function Separator(rest: string): string {
    if StartsWith(Trim(rest), "}") then "" else ","
  }

  /** The separator is empty exactly when the first non-whitespace character after `{` is `}`. */
  lemma SeparatorIff(rest: string)
    ensures Separator(rest) == "" <==> (TrimStart(rest) != [] && TrimStart(rest)[0] == '}')
  {
    TrimStartsWith(rest, '}');
  }

  /**
   * The metric lines `route` pushes for one source line: with no global labels
   * the line itself; otherwise the labels spliced in after the first `{`, or
   * nothing when the line has no `{`.
   */
  function Relabel(labels: string, line: string): (r: Option<string>)
    ensures r.None? <==> labels != [] && '{' !in line
    ensures labels == [] ==> r == Some(line)
  {
    if labels == [] then Some(line)
    else
      var k := IndexOf(line, '{');
      if k == |line| then None
      else
        var rest := line[k + 1..];
        Some(line[..k] + "{" + labels + Separator(rest) + rest)
  }

  /** The split is at the first `{`: the class (head) before it and the rest after it are kept verbatim. */
  lemma RelabelAtFirstBrace(labels: string, head: string, rest: string)
    requires labels != [] && '{' !in head
    ensures Relabel(labels, head + "{" + rest) == Some(head + "{" + labels + Separator(rest) + rest)
  {
    var line := head + "{" + rest;
    IndexOfSplit(head, '{', rest);
    assert line[..|head|] == head;
    assert line[|head| + 1..] == rest;
  }

  /** Removes the global labels that `Relabel` put in. */
  function Unlabel(labels: string, out: string): Option<string> {
    var k := IndexOf(out, '{');
    if k == |out| then None
    else
      var rest := out[k + 1..];
      if !StartsWith(rest, labels) then None
      else Some(out[..k] + "{" + DropComma(rest[|labels|..]))
  }

  /** The separator comma `Relabel` may have put after the global labels. */
  function DropComma(rem: string): string {
    if rem != [] && rem[0] == ',' then rem[1..] else rem
  }

  /** `Unlabel` on a line whose first `{` is followed by the labels. */
  lemma UnlabelAt(labels: string, head: string, tail: string)
    requires '{' !in head && StartsWith(tail, labels)
    ensures Unlabel(labels, head + "{" + tail) == Some(head + "{" + DropComma(tail[|labels|..]))
  {
    var out := head + "{" + tail;
    IndexOfSplit(head, '{', tail);
    assert out[..|head|] == head;
    assert out[|head| + 1..] == tail;
  }

  /** The global labels appear once, right after the first `{`, and removing them restores the line. */
  lemma RelabelRoundTrip(labels: string, line: string)
    requires labels != [] && '{' in line
    ensures Relabel(labels, line).Some?
    ensures Unlabel(labels, Relabel(labels, line).value) == Some(line)
  {
    var k := IndexOf(line, '{');
    var head, rest := line[..k], line[k + 1..];
    assert line == head + "{" + rest;
    RelabelAtFirstBrace(labels, head, rest);
    SeparatorNeverComma(rest);
    UnlabelSplice(labels, head, Separator(rest), rest);
  }

  /** An empty separator is only chosen for a rest that does not start with a comma. */
  lemma SeparatorNeverComma(rest: string)
    ensures Separator(rest) == "" ==> rest != [] && rest[0] != ','
  {
    if Separator(rest) == "" {
      SeparatorIff(rest);
      var t := TrimStart(rest);
      if |rest| == |t| {
        assert rest[0] == '}';
      } else {
        assert IsWhitespace(rest[0]);
      }
    }
  }

  lemma UnlabelSplice(labels: string, head: string, sep: string, rest: string)
    requires '{' !in head
    requires sep == "," || (sep == "" && rest != [] && rest[0] != ',')
    ensures Unlabel(labels, head + "{" + labels + sep + rest) == Some(head + "{" + rest)
  {
    var tail := labels + sep + rest;
    assert head + "{" + labels + sep + rest == head + "{" + tail;
    assert tail[..|labels|] == labels;
    assert tail[|labels|..] == sep + rest;
    UnlabelAt(labels, head, tail);
    if sep == "," {
      assert (sep + rest)[1..] == rest;
    } else {
      assert sep + rest == rest;
    }
  }

  /** The injection for an empty label set: no comma before the `}`. */
  lemma RelabelEmptySetExample()
    ensures Relabel("env=prod", "foo{} 5") == Some("foo{env=prod} 5")
  {
    var rest := "} 5";
    assert "foo{} 5" == "foo" + "{" + rest;
    assert "foo" + "{" + "env=prod" + "" + rest == "foo{env=prod} 5";
    TrimStartOfNonWhitespace(rest);
    SeparatorIff(rest);
    RelabelAtFirstBrace("env=prod", "foo", rest);
  }

  /** The injection for a non-empty label set: one comma before the original labels. */
  lemma RelabelNonEmptySetExample()
    ensures Relabel("env=prod", "foo{bar=1} 5") == Some("foo{env=prod,bar=1} 5")
  {
    var rest := "bar=1} 5";
    assert "foo{bar=1} 5" == "foo" + "{" + rest;
    assert "foo" + "{" + "env=prod" + "," + rest == "foo{env=prod,bar=1} 5";
    TrimStartOfNonWhitespace(rest);
    SeparatorIff(rest);
    RelabelAtFirstBrace("env=prod", "foo", rest);
  }

  /** What one source line contributes to the metrics sequence. */
  function Emitted(labels: string, line: string): seq<string> {
    match Relabel(labels, line)
    case None => []
    case Some(m) => [m]
  }

  /** The metrics `route` pushes for the lines of one file, in line order. */
  function RelabelLines(labels: string, lines: seq<string>): seq<string> {
    if lines == [] then []
    else RelabelLines(labels, lines[..|lines| - 1]) + Emitted(labels, lines[|lines| - 1])
  }

  lemma {:induction false} RelabelLinesAppend(labels: string, a: seq<string>, b: seq<string>)
    ensures RelabelLines(labels, a + b) == RelabelLines(labels, a) + RelabelLines(labels, b)
    decreases |b|
  {
    if b == [] {
      assert a + b == a;
    } else {
      var b' := b[..|b| - 1];
      assert (a + b)[..|a + b| - 1] == a + b';
      RelabelLinesAppend(labels, a, b');
    }
  }

  /** Without global labels every line is pushed unchanged, the empty ones too. */
  lemma {:induction false} RelabelLinesNoLabels(lines: seq<string>)
    ensures RelabelLines("", lines) == lines
  {
    if lines != [] {
      RelabelLinesNoLabels(lines[..|lines| - 1]);
    }
  }

  /**
   * With global labels every pushed metric is the relabelled form of a source
   * line, and every source line holding a `{` yields one.
   */
  lemma {:induction false} RelabelLinesMembers(labels: string, lines: seq<string>)
    requires labels != []
    ensures |RelabelLines(labels, lines)| <= |lines|
    ensures forall m :: m in RelabelLines(labels, lines) ==> exists l :: l in lines && Relabel(labels, l) == Some(m)
    ensures forall l :: l in lines && '{' in l ==> Relabel(labels, l).value in RelabelLines(labels, lines)
  {
    if lines != [] {
      var init, last := lines[..|lines| - 1], lines[|lines| - 1];
      assert lines == init + [last];
      RelabelLinesMembers(labels, init);
    }
  }
}
