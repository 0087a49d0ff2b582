/**
 * The pieces of Rust's `str`, `String` and `Path` API that the router relies on,
 * written out on `string` (a sequence of Unicode scalar values).
 */
module Text {
  import opened Wrappers

  /** Unicode White_Space, the property `char::is_whitespace` tests (used by `trim` and `split_whitespace`). */
  predicate IsWhitespace(c: char) {
    var n := c as int;
    (0x09 <= n <= 0x0D) || n == 0x20 || n == 0x85 || n == 0xA0 || n == 0x1680
    || (0x2000 <= n <= 0x200A) || n == 0x2028 || n == 0x2029 || n == 0x202F || n == 0x205F || n == 0x3000
  }

  predicate StartsWith(s: string, prefix: string) {
    |prefix| <= |s| && s[..|prefix|] == prefix
  }

  predicate EndsWith(s: string, suffix: string) {
    |suffix| <= |s| && s[|s| - |suffix|..] == suffix
  }

  /** Index of the first `c` in `s`, or `|s|` when there is none. */
  function IndexOf(s: string, c: char): (k: nat)
    ensures k <= |s|
    ensures forall j :: 0 <= j < k ==> s[j] != c
    ensures k < |s| ==> s[k] == c
  {
    if s == [] then 0
    else if s[0] == c then 0
    else 1 + IndexOf(s[1..], c)
  }

  /** The first `c` of `a + [c] + b` is the one after `a` when `a` holds none. */
  lemma IndexOfSplit(a: string, c: char, b: string)
    requires c !in a
    ensures IndexOf(a + [c] + b, c) == |a|
  {
    var s := a + [c] + b;
    assert s[|a|] == c;
    assert forall j :: 0 <= j < |a| ==> s[j] == a[j];
  }

  /** Index of the last `c` in `s`, if any. */
  function LastIndexOf(s: string, c: char): (r: Option<nat>)
    ensures r.None? ==> c !in s
    ensures r.Some? ==> r.value < |s| && s[r.value] == c
    ensures r.Some? ==> forall j :: r.value < j < |s| ==> s[j] != c
  {
    if s == [] then None
    else if s[|s| - 1] == c then Some(|s| - 1)
    else
      var r := LastIndexOf(s[..|s| - 1], c);
      assert forall j :: 0 <= j < |s| - 1 ==> s[..|s| - 1][j] == s[j];
      r
  }

  /** Index of the first whitespace character of `s`, or `|s|`. */
  function WhitespaceIndex(s: string): (k: nat)
    ensures k <= |s|
    ensures forall j :: 0 <= j < k ==> !IsWhitespace(s[j])
    ensures k < |s| ==> IsWhitespace(s[k])
  {
    if s == [] then 0
    else if IsWhitespace(s[0]) then 0
    else 1 + WhitespaceIndex(s[1..])
  }

  /** `str::trim_start`: `s` without its leading whitespace. */
  function TrimStart(s: string): (r: string)
    ensures |r| <= |s| && r == s[|s| - |r|..]
    ensures forall j :: 0 <= j < |s| - |r| ==> IsWhitespace(s[j])
    ensures r == [] || !IsWhitespace(r[0])
  {
    if s != [] && IsWhitespace(s[0]) then TrimStart(s[1..]) else s
  }

  /** `str::trim_end`: `s` without its trailing whitespace. */
  function TrimEnd(s: string): (r: string)
    ensures |r| <= |s| && r == s[..|r|]
    ensures forall j :: |r| <= j < |s| ==> IsWhitespace(s[j])
    ensures r == [] || !IsWhitespace(r[|r| - 1])
  {
    if s != [] && IsWhitespace(s[|s| - 1]) then TrimEnd(s[..|s| - 1]) else s
  }

  /** `str::trim`. */
  function Trim(s: string): string {
    TrimEnd(TrimStart(s))
  }

  /**
   * `s.trim().starts_with(c)` for a non-whitespace `c` holds exactly when the
   * first non-whitespace character of `s` is `c`.
   */
  lemma TrimStartsWith(s: string, c: char)
    requires !IsWhitespace(c)
    ensures StartsWith(Trim(s), [c]) <==> (TrimStart(s) != [] && TrimStart(s)[0] == c)
  {
    var t := TrimStart(s);
    var r := TrimEnd(t);
    assert StartsWith(r, [c]) <==> (r != [] && r[0] == c) by {
      if r != [] { assert r[..1] == [r[0]]; }
    }
    if t != [] {
      assert !IsWhitespace(t[0]);
      assert r != [];
      assert r[0] == t[0];
    }
  }

  lemma TrimStartOfNonWhitespace(s: string)
    requires s != [] && !IsWhitespace(s[0])
    ensures TrimStart(s) == s
  {
  }

  /** A word of `split_whitespace`: non-empty and free of whitespace. */
  predicate IsWord(w: string) {
    w != [] && forall j :: 0 <= j < |w| ==> !IsWhitespace(w[j])
  }

  /** `str::split_whitespace`: the maximal runs of non-whitespace characters, in order. */
  function Words(s: string): seq<string>
    decreases |s|
  {
    var t := TrimStart(s);
    if t == [] then []
    else
      var k := WhitespaceIndex(t);
      WordAtStart(t, k);
      [t[..k]] + Words(t[k..])
  }

  /** Every piece `Words` yields is a non-empty run of non-whitespace characters. */
  lemma {:induction false} WordsAreWords(s: string)
    ensures forall k :: 0 <= k < |Words(s)| ==> IsWord(Words(s)[k])
    decreases |s|
  {
    var t := TrimStart(s);
    if t != [] {
      var k := WhitespaceIndex(t);
      WordAtStart(t, k);
      WordsAreWords(t[k..]);
      var ws, rest := Words(s), Words(t[k..]);
      assert ws == [t[..k]] + rest;
      forall i | 0 <= i < |ws|
        ensures IsWord(ws[i])
      {
        if i > 0 {
          assert ws[i] == rest[i - 1];
        }
      }
    }
  }

  /** Text that starts with a non-whitespace character starts with a word, up to the first whitespace. */
  lemma WordAtStart(t: string, k: nat)
    requires t != [] && !IsWhitespace(t[0]) && k == WhitespaceIndex(t)
    ensures 0 < k <= |t| && IsWord(t[..k])
  {
    var w := t[..k];
    forall j | 0 <= j < |w|
      ensures !IsWhitespace(w[j])
    {
      assert w[j] == t[j];
    }
  }

  /** `line.split_whitespace().nth(1)`. */
  function SecondWord(line: string): Option<string> {
    var ws := Words(line);
    if |ws| >= 2 then Some(ws[1]) else None
  }

  /** `parts` joined with `sep` between consecutive elements. */
  function Join(parts: seq<string>, sep: string): string {
    if |parts| == 0 then ""
    else if |parts| == 1 then parts[0]
    else parts[0] + sep + Join(parts[1..], sep)
  }

  /** Whitespace only, possibly empty. */
  predicate IsBlank(sp: string) {
    forall j :: 0 <= j < |sp| ==> IsWhitespace(sp[j])
  }

  /** Leading whitespace, however long, is trimmed away. */
  lemma {:induction false} TrimStartOfBlank(sp: string, s: string)
    requires IsBlank(sp)
    ensures TrimStart(sp + s) == TrimStart(s)
    decreases |sp|
  {
    if sp != [] {
      assert (sp + s)[0] == sp[0];
      assert (sp + s)[1..] == sp[1..] + s;
      TrimStartOfBlank(sp[1..], s);
    } else {
      assert sp + s == s;
    }
  }

  /** Leading whitespace does not change the words. */
  lemma WordsAfterBlank(sp: string, s: string)
    requires IsBlank(sp)
    ensures Words(sp + s) == Words(s)
  {
    TrimStartOfBlank(sp, s);
  }

  /** A word followed by whitespace, however long, and more text is the first word of it. */
  lemma WordsAfterWord(w: string, sp: string, s: string)
    requires IsWord(w) && sp != [] && IsBlank(sp)
    ensures Words(w + sp + s) == [w] + Words(s)
  {
    var t := w + sp + s;
    assert t == w + (sp + s);
    TrimStartOfNonWhitespace(t);
    assert t[|w|] == sp[0];
    assert forall j :: 0 <= j < |w| ==> t[j] == w[j];
    assert WhitespaceIndex(t) == |w|;
    assert t[..|w|] == w;
    assert t[|w|..] == sp + s;
    WordsAfterBlank(sp, s);
  }

  lemma WordsSingle(w: string)
    requires IsWord(w)
    ensures Words(w) == [w]
  {
    TrimStartOfNonWhitespace(w);
    assert WhitespaceIndex(w) == |w|;
    assert w[|w|..] == [];
    assert w[..|w|] == w;
  }

  /** A word that ends the text or is followed by whitespace is the first word of it. */
  lemma WordsOfWordThen(w: string, rest: string)
    requires IsWord(w) && (rest == [] || IsWhitespace(rest[0]))
    ensures |Words(w + rest)| >= 1 && Words(w + rest)[0] == w
  {
    if rest == [] {
      assert w + rest == w;
      WordsSingle(w);
    } else {
      assert rest == [rest[0]] + rest[1..];
      ConcatAssoc(w, [rest[0]], rest[1..]);
      WordsAfterWord(w, [rest[0]], rest[1..]);
    }
  }

  /**
   * The converse: text with a word splits into leading whitespace, its first
   * word, and a rest that is empty or starts with whitespace and holds the
   * remaining words.
   */
  lemma WordsSplit(s: string) returns (sp: string, w: string, rest: string)
    requires Words(s) != []
    ensures IsBlank(sp) && IsWord(w) && s == sp + w + rest
    ensures rest == [] || IsWhitespace(rest[0])
    ensures Words(s) == [w] + Words(rest)
  {
    sp, w, rest := LeadingWord(s);
  }

  /** Where `Words` cuts its first word: after the leading whitespace, up to the next whitespace. */
  lemma LeadingWord(s: string) returns (sp: string, w: string, rest: string)
    requires TrimStart(s) != []
    ensures IsBlank(sp) && IsWord(w) && s == sp + w + rest
    ensures rest == [] || IsWhitespace(rest[0])
    ensures w == TrimStart(s)[..WhitespaceIndex(TrimStart(s))]
    ensures rest == TrimStart(s)[WhitespaceIndex(TrimStart(s))..]
  {
    var t := TrimStart(s);
    sp := LeadingBlank(s);
    var k := WhitespaceIndex(t);
    WordAtStart(t, k);
    w, rest := t[..k], t[k..];
    CutAt(t, k);
    ConcatAssoc(sp, w, rest);
  }

  /** What `TrimStart` drops is whitespace, and it drops it from the front. */
  lemma LeadingBlank(s: string) returns (sp: string)
    ensures IsBlank(sp) && s == sp + TrimStart(s)
  {
    var t := TrimStart(s);
    sp := s[..|s| - |t|];
    CutAt(s, |s| - |t|);
  }

  lemma CutAt(t: string, k: nat)
    requires k <= |t|
    ensures t == t[..k] + t[k..]
  {
  }

  lemma ConcatAssoc(a: string, b: string, c: string)
    ensures a + b + c == a + (b + c)
  {
  }

  /** Splitting words joined by single spaces gives the words back. */
  lemma {:induction false} WordsOfJoin(ws: seq<string>)
    requires forall k :: 0 <= k < |ws| ==> IsWord(ws[k])
    ensures Words(Join(ws, " ")) == ws
  {
    if |ws| == 1 {
      WordsSingle(ws[0]);
    } else if |ws| > 1 {
      var rest := Join(ws[1..], " ");
      assert ws == [ws[0]] + ws[1..];
      WordsOfJoin(ws[1..]);
      WordsAfterWord(ws[0], " ", rest);
    }
  }

  /**
   * `line` is whitespace, a word `w0`, at least one whitespace character, the
   * word `w1`, and then nothing or more text that starts with whitespace.
   */
  ghost predicate SplitsAsSecond(line: string, sp0: string, w0: string, sp1: string, w1: string, rest: string) {
    && IsBlank(sp0) && IsWord(w0) && sp1 != [] && IsBlank(sp1) && IsWord(w1)
    && (rest == [] || IsWhitespace(rest[0]))
    && line == sp0 + w0 + sp1 + w1 + rest
  }

  /** A line laid out that way has `w1` as its second word. */
  lemma SecondWordOfSplit(line: string, sp0: string, w0: string, sp1: string, w1: string, rest: string)
    requires SplitsAsSecond(line, sp0, w0, sp1, w1, rest)
    ensures SecondWord(line) == Some(w1)
  {
    var b := w0 + sp1 + (w1 + rest);
    Regroup(sp0, w0, sp1, w1, rest);
    WordsAfterBlank(sp0, b);
    SecondOfWordThen(w0, sp1, w1, rest);
  }

  lemma Regroup(sp0: string, w0: string, sp1: string, w1: string, rest: string)
    ensures sp0 + w0 + sp1 + w1 + rest == sp0 + (w0 + sp1 + (w1 + rest))
  {
    var a := w1 + rest;
    ConcatAssoc(sp0 + w0 + sp1, w1, rest);
    ConcatAssoc(sp0 + w0, sp1, a);
    ConcatAssoc(sp0, w0, sp1 + a);
    ConcatAssoc(w0, sp1, a);
  }

  lemma SecondOfWordThen(w0: string, sp1: string, w1: string, rest: string)
    requires IsWord(w0) && sp1 != [] && IsBlank(sp1) && IsWord(w1) && (rest == [] || IsWhitespace(rest[0]))
    ensures |Words(w0 + sp1 + (w1 + rest))| >= 2 && Words(w0 + sp1 + (w1 + rest))[1] == w1
  {
    var a := w1 + rest;
    WordsAfterWord(w0, sp1, a);
    WordsOfWordThen(w1, rest);
    var ws := Words(a);
    assert ([w0] + ws)[1] == ws[0];
  }

  /** The converse: a line with a second word is laid out as above around it. */
  lemma SecondWordSplits(line: string) returns (sp0: string, w0: string, sp1: string, rest: string)
    requires SecondWord(line).Some?
    ensures SplitsAsSecond(line, sp0, w0, sp1, SecondWord(line).value, rest)
  {
    var r0, w1;
    sp0, w0, r0 := WordsSplit(line);
    sp1, w1, rest := WordsSplit(r0);
    var x := sp0 + w0;
    ConcatAssoc(x, sp1 + w1, rest);
    ConcatAssoc(x, sp1, w1);
  }

  /** `nth(1)` of `split_whitespace` is `w1` exactly when the line is laid out as above. */
  lemma SecondWordIff(line: string, w1: string)
    ensures SecondWord(line) == Some(w1) <==>
      exists sp0, w0, sp1, rest :: SplitsAsSecond(line, sp0, w0, sp1, w1, rest)
  {
    if SecondWord(line) == Some(w1) {
      var sp0, w0, sp1, rest := SecondWordSplits(line);
    }
    if exists sp0, w0, sp1, rest :: SplitsAsSecond(line, sp0, w0, sp1, w1, rest) {
      var sp0, w0, sp1, rest :| SplitsAsSecond(line, sp0, w0, sp1, w1, rest);
      SecondWordOfSplit(line, sp0, w0, sp1, w1, rest);
    }
  }

  /** UTF-8 encoded width of one Unicode scalar value. */
  function Utf8Width(c: char): (w: nat)
    ensures 1 <= w <= 4
  {
    var n := c as int;
    if n < 0x80 then 1 else if n < 0x800 then 2 else if n < 0x10000 then 3 else 4
  }

  /** `String::len`: the length of `s` in UTF-8 bytes. */
  function ByteLen(s: string): (n: nat)
    ensures |s| <= n <= 4 * |s|
  {
    if s == [] then 0 else ByteLen(s[..|s| - 1]) + Utf8Width(s[|s| - 1])
  }

  lemma {:induction false} ByteLenAppend(a: string, b: string)
    ensures ByteLen(a + b) == ByteLen(a) + ByteLen(b)
    decreases |b|
  {
    if b == [] {
      assert a + b == a;
    } else {
      var b' := b[..|b| - 1];
      assert (a + b)[..|a + b| - 1] == a + b';
      ByteLenAppend(a, b');
    }
  }

  /** A line of `str::lines` loses one trailing carriage return. */
  function StripCR(line: string): (r: string)
    ensures r == line || (line == r + ['\r'])
  {
    if line != [] && line[|line| - 1] == '\r' then line[..|line| - 1] else line
  }

  /**
   * `str::lines`: the pieces between newlines, a final empty piece dropped
   * (`split_terminator('\n')`), each stripped of one trailing `'\r'`.
   */
  function Lines(s: string): (ls: seq<string>)
    ensures forall k :: 0 <= k < |ls| ==> '\n' !in ls[k]
    decreases |s|
  {
    if s == [] then []
    else
      var k := IndexOf(s, '\n');
      if k == |s| then [StripCR(s)]
      else [StripCR(s[..k])] + Lines(s[k + 1..])
  }

  /** Each line followed by a newline: the format of a metrics file. */
  function Terminated(ls: seq<string>): string {
    if ls == [] then "" else ls[0] + "\n" + Terminated(ls[1..])
  }

  lemma {:induction false} TerminatedAppend(ls: seq<string>, l: string)
    ensures Terminated(ls + [l]) == Terminated(ls) + l + "\n"
  {
    if ls == [] {
      assert [] + [l] == [l];
    } else {
      assert (ls + [l])[1..] == ls[1..] + [l];
      TerminatedAppend(ls[1..], l);
    }
  }

  /** A line that `str::lines` gives back unchanged once it is written with a newline. */
  predicate IsPlainLine(l: string) {
    '\n' !in l && (l == [] || l[|l| - 1] != '\r')
  }

  /** Reading back a file of newline-terminated plain lines gives those lines. */
  lemma {:induction false} LinesOfTerminated(ls: seq<string>)
    requires forall k :: 0 <= k < |ls| ==> IsPlainLine(ls[k])
    ensures Lines(Terminated(ls)) == ls
  {
    if ls != [] {
      var l, rest := ls[0], Terminated(ls[1..]);
      var s := l + "\n" + rest;
      IndexOfSplit(l, '\n', rest);
      assert s[..|l|] == l;
      assert s[|l| + 1..] == rest;
      LinesOfTerminated(ls[1..]);
    }
  }

  /** Each line followed by a carriage return and a newline. */
  function CrlfTerminated(ls: seq<string>): string {
    if ls == [] then "" else ls[0] + "\r\n" + CrlfTerminated(ls[1..])
  }

  /**
   * Reading back a file of `\r\n`-terminated lines gives those lines: only
   * the carriage return before each newline is stripped, so a line may
   * itself end in `'\r'`.
   */
  lemma {:induction false} LinesOfCrlfTerminated(ls: seq<string>)
    requires forall k :: 0 <= k < |ls| ==> '\n' !in ls[k]
    ensures Lines(CrlfTerminated(ls)) == ls
  {
    if ls != [] {
      var l, rest := ls[0], CrlfTerminated(ls[1..]);
      var s := l + "\r\n" + rest;
      assert s == (l + "\r") + ['\n'] + rest;
      IndexOfSplit(l + "\r", '\n', rest);
      assert s[..|l| + 1] == l + "\r";
      assert s[|l| + 2..] == rest;
      LinesOfCrlfTerminated(ls[1..]);
    }
  }

  /**
   * `Path::extension` of a file name: the part after the last `.`, unless
   * that dot starts the name or the name is `..`.
   */
  function Extension(name: string): Option<string> {
    if name == ".." then None
    else
      match LastIndexOf(name, '.')
      case None => None
      case Some(d) => if d == 0 then None else Some(name[d + 1..])
  }

  /** A file name with extension `metrics` is one that ends in `.metrics` after a non-empty stem. */
  lemma MetricsExtension(name: string)
    ensures Extension(name) == Some("metrics") <==> |name| > 8 && EndsWith(name, ".metrics")
  {
    if |name| > 8 && EndsWith(name, ".metrics") {
      var d := |name| - 8;
      assert name[d] == '.';
      assert forall j :: d < j < |name| ==> name[j] == "metrics"[j - d - 1];
      var r := LastIndexOf(name, '.');
      assert r.Some?;
      assert r.value == d;
      assert name[d + 1..] == "metrics";
    }
    if Extension(name) == Some("metrics") {
      var d := LastIndexOf(name, '.').value;
      assert name[d + 1..] == "metrics";
      assert name[|name| - 8..] == [name[d]] + name[d + 1..];
    }
  }

  predicate IsDigits(s: string) {
    forall j :: 0 <= j < |s| ==> '0' <= s[j] <= '9'
  }

  /** Decimal digits of a natural number. */
  function NatToDecimal(n: nat): (s: string)
    ensures s != [] && IsDigits(s)
  {
    var d := [(48 + n % 10) as char];
    if n < 10 then d else NatToDecimal(n / 10) + d
  }

  /** `format!("{}", n)` for an integer. */
  function IntToDecimal(n: int): string {
    if n < 0 then "-" + NatToDecimal(-n) else NatToDecimal(n)
  }

  /** The number a string of decimal digits denotes, most significant digit first. */
  function DigitsValue(s: string): nat {
    if s == [] then 0
    else
      var d := s[|s| - 1] as int - 48;
      DigitsValue(s[..|s| - 1]) * 10 + (if 0 <= d then d else 0)
  }

  /** The number an optionally `-`-signed decimal string denotes. */
  function DecimalValue(s: string): int {
    if s != [] && s[0] == '-' then -(DigitsValue(s[1..]) as int) else DigitsValue(s)
  }

  /** The digits of `NatToDecimal(n)` denote `n`. */
  lemma {:induction false} NatToDecimalValue(n: nat)
    ensures DigitsValue(NatToDecimal(n)) == n
  {
    var d := [(48 + n % 10) as char];
    if n >= 10 {
      NatToDecimalValue(n / 10);
      var s := NatToDecimal(n / 10) + d;
      assert s[..|s| - 1] == NatToDecimal(n / 10);
    }
  }

  /** Reading back the text of an integer gives the integer. */
  lemma IntToDecimalValue(n: int)
    ensures DecimalValue(IntToDecimal(n)) == n
  {
    if n < 0 {
      NatToDecimalValue(-n);
      assert ("-" + NatToDecimal(-n))[1..] == NatToDecimal(-n);
    } else {
      NatToDecimalValue(n);
    }
  }

  /** Different integers have different texts. */
  lemma IntToDecimalInjective(a: int, b: int)
    ensures IntToDecimal(a) == IntToDecimal(b) ==> a == b
  {
    IntToDecimalValue(a);
    IntToDecimalValue(b);
  }

  /**
   * A text ending in `-` and a run of digits splits there in one way only:
   * the digits after the last `-`, and what comes before it.
   */
  lemma DashDigitsSplit(a: string, b: string, d1: string, d2: string)
    requires IsDigits(d1) && IsDigits(d2)
    requires a + "-" + d1 == b + "-" + d2
    ensures a == b && d1 == d2
  {
    var u := a + "-" + d1;
    assert u[|a|] == '-';
    assert u[|b|] == '-';
    assert a == u[..|a|];
    assert b == u[..|b|];
    assert d1 == u[|a| + 1..];
    assert d2 == u[|b| + 1..];
  }

  /** Appending to the same prefix keeps two strings apart. */
  lemma PrefixCancel(p: string, a: string, b: string)
    requires p + a == p + b
    ensures a == b
  {
    assert a == (p + a)[|p|..];
    assert b == (p + b)[|p|..];
  }

  /** Appending the same suffix to two strings keeps them apart. */
  lemma SuffixCancel(a: string, b: string, s: string)
    requires a + s == b + s
    ensures a == b
  {
    assert a == (a + s)[..|a|];
    assert b == (b + s)[..|b|];
  }
}
