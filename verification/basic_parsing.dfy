/** Line-level input helpers (aoc2025/src/basic_parsing.rs): splitting a
    puzzle input at its first blank line; and the prefix test behind Rust's
    `str::strip_prefix`, which several puzzles use. */
module BasicParsing {

  /** `s.strip_prefix(prefix)` succeeds, leaving `s[|prefix|..]`. */
  predicate StartsWith(s: string, prefix: string) {
    |prefix| <= |s| && s[..|prefix|] == prefix
  }

  /** The lines that are not empty, in order. */
  function NonBlank(lines: seq<string>): (r: seq<string>)
    ensures |r| <= |lines|
  {
    if |lines| == 0 then []
    else
      var last := lines[|lines| - 1];
      NonBlank(lines[..|lines| - 1]) + (if |last| == 0 then [] else [last])
  }

  /** No line kept by `NonBlank` is empty. */
  lemma {:induction false} NonBlankHasNoEmpty(lines: seq<string>)
    ensures forall i :: 0 <= i < |NonBlank(lines)| ==> |NonBlank(lines)[i]| > 0
  {
    if |lines| > 0 {
      NonBlankHasNoEmpty(lines[..|lines| - 1]);
    }
  }

  /** The index of the first empty line, or the number of lines when there
      is none. */
  function FirstBlank(lines: seq<string>): (k: nat)
    ensures k <= |lines|
  {
    if |lines| == 0 then 0
    else if |lines[0]| == 0 then 0
    else 1 + FirstBlank(lines[1..])
  }

  /** `FirstBlank` is the least index of a blank line. */
  lemma {:induction false} FirstBlankSpec(lines: seq<string>)
    ensures FirstBlank(lines) < |lines| ==> |lines[FirstBlank(lines)]| == 0
    ensures forall i :: 0 <= i < FirstBlank(lines) ==> |lines[i]| > 0
  {
    if |lines| > 0 && |lines[0]| > 0 {
      FirstBlankSpec(lines[1..]);
    }
  }

  /** The state of `separate_by_blank` after reading `lines`: the lines
      kept before the first blank line, the lines kept after it, and
      whether no blank line has been seen yet. */
  function Scan(lines: seq<string>): (seq<string>, seq<string>, bool)
  {
    if |lines| == 0 then ([], [], true)
    else
      var (s0, s1, first) := Scan(lines[..|lines| - 1]);
      var line := lines[|lines| - 1];
      if |line| == 0 then (s0, s1, false)
      else if first then (s0 + [line], s1, first)
      else (s0, s1 + [line], first)
  }

  /** Reading one more line takes one more step of the scan. */
  lemma ScanSnoc(lines: seq<string>, i: nat)
    requires i < |lines|
    ensures Scan(lines[..i + 1]) ==
      var (s0, s1, first) := Scan(lines[..i]);
      if |lines[i]| == 0 then (s0, s1, false)
      else if first then (s0 + [lines[i]], s1, first)
      else (s0, s1 + [lines[i]], first)
  {
    assert lines[..i + 1][..i] == lines[..i];
  }

  /** The first blank line of `lines + [line]` is that of `lines`, or else
      `line` itself when it is blank. */
  lemma FirstBlankSnoc(lines: seq<string>, line: string)
    ensures FirstBlank(lines + [line]) ==
      if FirstBlank(lines) < |lines| then FirstBlank(lines)
      else if |line| == 0 then |lines|
      else |lines| + 1
  {
    var ext := lines + [line];
    var k := FirstBlank(ext);
    var k0 := FirstBlank(lines);
    FirstBlankSpec(ext);
    FirstBlankSpec(lines);
    if k < |lines| {
      assert ext[k] == lines[k];
    }
    if k0 < |lines| {
      assert ext[k0] == lines[k0];
    } else if k == |lines| + 1 {
      assert ext[|lines|] == line;
    }
  }

  /** What the scan computes: the lines before the first blank line, the
      remaining non-empty lines after them, and whether no blank line was
      seen. */
  predicate ScanMeets(lines: seq<string>)
  {
    var (s0, s1, first) := Scan(lines);
    && s0 == lines[..FirstBlank(lines)]
    && s0 + s1 == NonBlank(lines)
    && (first <==> FirstBlank(lines) == |lines|)
    && (first ==> s1 == [])
  }

  lemma {:induction false} ScanSpec(lines: seq<string>)
    ensures Scan(lines).0 == lines[..FirstBlank(lines)]
    ensures Scan(lines).0 + Scan(lines).1 == NonBlank(lines)
    ensures Scan(lines).2 <==> FirstBlank(lines) == |lines|
    ensures Scan(lines).2 ==> Scan(lines).1 == []
  {
    if |lines| > 0 {
      var n := |lines| - 1;
      ScanSpec(lines[..n]);
      assert lines == lines[..n] + [lines[n]];
      ScanStep(lines[..n], lines[n]);
    }
  }

  lemma ScanStep(pre: seq<string>, line: string)
    requires ScanMeets(pre)
    ensures ScanMeets(pre + [line])
  {
    var lines := pre + [line];
    assert lines[..|pre|] == pre;
    FirstBlankSnoc(pre, line);
    var (s0, s1, first) := Scan(pre);
    var k := FirstBlank(pre);
    if |line| == 0 {
      ScanTail(pre, line, s0, s1, first, k);
    } else if first {
      assert s0 == pre;
      assert s0 + [line] == lines;
    } else {
      ScanTail(pre, line, s0, s1, first, k);
      assert s0 + (s1 + [line]) == (s0 + s1) + [line];
    }
  }

  /** The scan's and `NonBlank`'s step on one more line, once a blank line
      has been seen or this line is blank. */
  lemma ScanTail(pre: seq<string>, line: string, s0: seq<string>, s1: seq<string>, first: bool, k: nat)
    requires Scan(pre) == (s0, s1, first) && k == FirstBlank(pre)
    requires |line| == 0 || !first
    ensures Scan(pre + [line]) == if |line| == 0 then (s0, s1, false) else (s0, s1 + [line], first)
    ensures NonBlank(pre + [line]) == NonBlank(pre) + (if |line| == 0 then [] else [line])
    ensures (pre + [line])[..k] == pre[..k]
  {
    assert (pre + [line])[..|pre|] == pre;
  }

  /** `separate_by_blank`: the non-empty lines before the first blank line,
      and the non-empty lines after it. */
  method SeparateByBlank(lines: seq<string>) returns (s0: seq<string>, s1: seq<string>)
    ensures s0 == lines[..FirstBlank(lines)]
    ensures s0 + s1 == NonBlank(lines)
    ensures forall i :: 0 <= i < |s1| ==> |s1[i]| > 0
    ensures forall i :: 0 <= i < |s0| ==> |s0[i]| > 0
    ensures FirstBlank(lines) == |lines| ==> s1 == []
  {
    s0 := [];
    s1 := [];
    var first := true;
    var i := 0;
    while i < |lines|
      invariant 0 <= i <= |lines|
      invariant (s0, s1, first) == Scan(lines[..i])
    {
      var line := lines[i];
      ScanSnoc(lines, i);
      if |line| == 0 {
        first := false;
      } else if first {
        s0 := s0 + [line];
      } else {
        s1 := s1 + [line];
      }
      i := i + 1;
    }
    assert lines[..i] == lines;
    ScanSpec(lines);
    FirstBlankSpec(lines);
    NonBlankHasNoEmpty(lines);
    assert forall j :: 0 <= j < |s1| ==> s1[j] == NonBlank(lines)[|s0| + j];
  }
}
