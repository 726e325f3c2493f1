/** The Ruby String operations the analyser relies on, over `seq<char>`. */
module Strings {

  /** String#chomp without argument: drops one trailing "\r\n", "\n" or "\r". */
  function Chomp(s: string): (r: string)
    ensures r <= s
    ensures s[|r|..] in {"", "\n", "\r", "\r\n"}
    ensures r == s <==> !EndsInLineBreak(s)
    ensures |s| >= 2 && s[|s| - 2..] == "\r\n" ==> |r| == |s| - 2
  {
    if |s| >= 2 && s[|s| - 2..] == "\r\n" then s[..|s| - 2]
    else if EndsInLineBreak(s) then
      assert s[|s| - 1..] == [s[|s| - 1]];
      s[..|s| - 1]
    else s
  }

  predicate EndsInLineBreak(s: string) {
    |s| > 0 && (s[|s| - 1] == '\n' || s[|s| - 1] == '\r')
  }

  /** A line as File.foreach yields it: its text and the newline. */
  lemma ChompLine(s: string)
    requires '\n' !in s && '\r' !in s
    ensures Chomp(s + "\n") == s && Chomp(s) == s
  {
    assert (s + "\n")[..|s|] == s;
    if |s| > 0 {
      assert s[|s| - 1] in s;
      assert (s + "\n")[|s| - 1] == s[|s| - 1];
    }
  }

  /** The line endings chomp removes, and the empty ending of a file's last line. */
  predicate IsLineEnd(e: string) {
    e == "" || e == "\n" || e == "\r" || e == "\r\n"
  }

  /** A line holding `s` and then any ending chomps back to `s`. */
  lemma ChompLineEnd(s: string, e: string)
    requires '\n' !in s && '\r' !in s
    requires IsLineEnd(e)
    ensures Chomp(s + e) == s
  {
    var t := s + e;
    assert t[..|s|] == s;
    if |s| > 0 {
      assert s[|s| - 1] in s;
      assert t[|s| - 1] == s[|s| - 1];
    }
    if e == "\r\n" {
      assert t[|t| - 2..] == "\r\n";
    } else if e != "" {
      assert t[|t| - 1] == e[0];
    }
  }

  /** Every line is its chomped text followed by a line ending. */
  lemma ChompSplitsLine(line: string)
    ensures IsLineEnd(line[|Chomp(line)|..])
    ensures line == Chomp(line) + line[|Chomp(line)|..]
  {
  }

  /** String#end_with? for a one-character suffix. */
  predicate EndsWith(s: string, c: char) {
    |s| > 0 && s[|s| - 1] == c
  }

  /** Index of the first occurrence of `c`. */
  function FirstIndex(s: string, c: char): (k: nat)
    requires c in s
    ensures k < |s| && s[k] == c && c !in s[..k]
  {
    if s[0] == c then 0 else FirstIndex(s[1..], c) + 1
  }

  /** String#rpartition(c)[0]: the text before the last `c`, or "" when there is none. */
  function BeforeLast(s: string, c: char): (r: string)
    ensures r <= s
    ensures c in s ==> |r| < |s| && s[|r|] == c && c !in s[|r| + 1..]
    ensures c !in s ==> r == ""
  {
    if s == [] then ""
    else if s[|s| - 1] == c then s[..|s| - 1]
    else BeforeLast(s[..|s| - 1], c)
  }

  /** Case folding as String#casecmp does it: only A-Z and a-z. */
  function Lower(c: char): char {
    if 'A' <= c <= 'Z' then (c as int + 32) as char else c
  }

  /** `a.casecmp(b).zero?` */
  predicate CaseEq(a: string, b: string) {
    |a| == |b| && forall i :: 0 <= i < |a| ==> Lower(a[i]) == Lower(b[i])
  }

  /** Unanchored substring test: `p` occurs somewhere in `s`. */
  predicate HasInfix(s: string, p: string)
    decreases |s|
  {
    p <= s || (s != [] && HasInfix(s[1..], p))
  }

  lemma {:induction false} InfixAt(x: string, p: string, y: string)
    ensures HasInfix(x + p + y, p)
  {
    if x == [] {
      assert x + p + y == p + y;
    } else {
      assert (x + p + y)[1..] == x[1..] + p + y;
      InfixAt(x[1..], p, y);
    }
  }

  /**
   * The fields of `s` between occurrences of `sep`, keeping empty ones, so that joining
   * them again gives `s` back. Unlike String#split, the empty text has one empty field.
   */
  function Split(s: string, sep: char): (fields: seq<string>)
    ensures |fields| >= 1
    ensures forall i :: 0 <= i < |fields| ==> sep !in fields[i]
  {
    if s == [] then [""]
    else
      var rest := Split(s[1..], sep);
      if s[0] == sep then [""] + rest
      else [[s[0]] + rest[0]] + rest[1..]
  }

  /** Array#join(sep). */
  function Join(parts: seq<string>, sep: string): string {
    if parts == [] then ""
    else if |parts| == 1 then parts[0]
    else parts[0] + sep + Join(parts[1..], sep)
  }

  lemma {:induction false} SplitAtSeparator(x: string, sep: char, y: string)
    requires sep !in x
    ensures Split(x + [sep] + y, sep) == [x] + Split(y, sep)
  {
    if x == [] {
      assert (x + [sep] + y)[1..] == y;
    } else {
      assert (x + [sep] + y)[1..] == x[1..] + [sep] + y;
      SplitAtSeparator(x[1..], sep, y);
      assert [x[0]] + x[1..] == x;
    }
  }

  lemma {:induction false} SplitWithoutSeparator(x: string, sep: char)
    requires sep !in x
    ensures Split(x, sep) == [x]
  {
    if x != [] {
      SplitWithoutSeparator(x[1..], sep);
      assert [x[0]] + x[1..] == x;
    }
  }

  /** Splitting undoes joining when no part contains the separator. */
  lemma {:induction false} SplitJoin(parts: seq<string>, sep: char)
    requires |parts| >= 1
    requires forall i :: 0 <= i < |parts| ==> sep !in parts[i]
    ensures Split(Join(parts, [sep]), sep) == parts
  {
    if |parts| == 1 {
      SplitWithoutSeparator(parts[0], sep);
    } else {
      SplitJoin(parts[1..], sep);
      SplitAtSeparator(parts[0], sep, Join(parts[1..], [sep]));
      assert parts[0] + [sep] + Join(parts[1..], [sep]) == Join(parts, [sep]);
      assert [parts[0]] + parts[1..] == parts;
    }
  }

  /** Joining undoes splitting. */
  lemma {:induction false} JoinSplit(s: string, sep: char)
    ensures Join(Split(s, sep), [sep]) == s
  {
    if s != [] {
      var rest := Split(s[1..], sep);
      JoinSplit(s[1..], sep);
      if s[0] == sep {
        assert ([""] + rest)[1..] == rest;
        assert [s[0]] + s[1..] == s;
      } else if |rest| == 1 {
        assert [s[0]] + s[1..] == s;
      } else {
        var fields := [[s[0]] + rest[0]] + rest[1..];
        assert fields[1..] == rest[1..];
        assert Join(rest, [sep]) == rest[0] + [sep] + Join(rest[1..], [sep]);
        assert [s[0]] + s[1..] == s;
      }
    }
  }

  /** Joining one more part adds the separator and that part at the end. */
  lemma {:induction false} JoinSnoc(parts: seq<string>, last: string, sep: string)
    requires |parts| >= 1
    ensures Join(parts + [last], sep) == Join(parts, sep) + sep + last
  {
    if |parts| == 1 {
      assert (parts + [last])[1..] == [last];
    } else {
      assert (parts + [last])[1..] == parts[1..] + [last];
      JoinSnoc(parts[1..], last, sep);
    }
  }

  /** A character found neither in the parts nor in the separator is not in their join. */
  lemma {:induction false} JoinAvoids(parts: seq<string>, sep: string, c: char)
    requires c !in sep
    requires forall i :: 0 <= i < |parts| ==> c !in parts[i]
    ensures c !in Join(parts, sep)
  {
    if |parts| > 1 {
      JoinAvoids(parts[1..], sep, c);
    }
  }
}
