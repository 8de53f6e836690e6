/** Reading validated pairs from tab-separated lines: each line has its trailing
    white space removed and is split at every tab; a line with exactly two fields
    becomes a pair, any other line is skipped. */
module Tsv {
  import opened Embedding
  import opened ValidatedPairs

  const TAB: char := '\t'

  /** The characters the host string library treats as white space
      (ASCII tab through carriage return, the four information separators, space,
      next line, no-break space and the Unicode space separators). */
  predicate IsSpace(c: char)
  {
    var code := c as int;
    (0x09 <= code <= 0x0D) || (0x1C <= code <= 0x20) || code == 0x85 || code == 0xA0 ||
    code == 0x1680 || (0x2000 <= code <= 0x200A) || code == 0x2028 || code == 0x2029 ||
    code == 0x202F || code == 0x205F || code == 0x3000
  }

  /** `s` without its trailing white space. */
  function RStrip(s: string): (r: string)
    ensures |r| <= |s| && r == s[..|r|]
    ensures r == [] || !IsSpace(r[|r| - 1])
    ensures forall i | |r| <= i < |s| :: IsSpace(s[i])
  {
    if s != [] && IsSpace(s[|s| - 1]) then RStrip(s[..|s| - 1]) else s
  }

  /** The fields of `s` between occurrences of `sep`; an empty string has one empty field. */
  function Split(s: string, sep: char): (r: seq<string>)
    ensures |r| >= 1
    ensures forall f | f in r :: sep !in f
  {
    if s == [] then [""]
    else if s[0] == sep then [""] + Split(s[1..], sep)
    else
      var rest := Split(s[1..], sep);
      [[s[0]] + rest[0]] + rest[1..]
  }

  /** The fields joined back with `sep` between consecutive ones. */
  function Join(fields: seq<string>, sep: char): string
    requires |fields| >= 1
  {
    if |fields| == 1 then fields[0] else fields[0] + [sep] + Join(fields[1..], sep)
  }

  function Occurrences(s: string, c: char): nat
  {
    if s == [] then 0 else (if s[0] == c then 1 else 0) + Occurrences(s[1..], c)
  }

  /** Splitting loses nothing: joining the fields restores the string. */
  lemma {:induction false} JoinSplit(s: string, sep: char)
    ensures Join(Split(s, sep), sep) == s
  {
    if s == [] {
    } else if s[0] == sep {
      JoinSplit(s[1..], sep);
      assert s == [sep] + s[1..];
    } else {
      var rest := Split(s[1..], sep);
      JoinSplit(s[1..], sep);
      if |rest| == 1 {
        assert s == [s[0]] + s[1..];
      } else {
        assert rest == [rest[0]] + rest[1..];
        assert s == [s[0]] + s[1..];
      }
    }
  }

  /** There is one more field than there are separators. */
  lemma {:induction false} SplitCount(s: string, sep: char)
    ensures |Split(s, sep)| == Occurrences(s, sep) + 1
  {
    if s != [] {
      SplitCount(s[1..], sep);
    }
  }

  /** The fields the loader sees for one line. */
  function Fields(line: string): (r: seq<string>)
    ensures |r| >= 1
  {
    Split(RStrip(line), TAB)
  }

  /** A line the loader keeps. */
  predicate WellFormed(line: string)
  {
    |Fields(line)| == 2
  }

  /** A line is kept exactly when, after its trailing white space is removed, it
      holds exactly one tab. */
  lemma WellFormedOneTab(line: string)
    ensures WellFormed(line) <==> Occurrences(RStrip(line), TAB) == 1
  {
    SplitCount(RStrip(line), TAB);
  }

  /** The pairs the kept lines give, in line order. */
  function ParsedPairs(leftLang: Lang, rightLang: Lang, lines: seq<string>): (r: seq<SuppliedPair>)
    ensures |r| <= |lines|
    ensures forall i | 0 <= i < |r| :: r[i].0.0 == leftLang && r[i].1.0 == rightLang && TAB !in r[i].0.1 && TAB !in r[i].1.1
  {
    if lines == [] then []
    else
      var fields := Fields(lines[0]);
      var rest := ParsedPairs(leftLang, rightLang, lines[1..]);
      if |fields| == 2 then [((leftLang, fields[0]), (rightLang, fields[1]))] + rest else rest
  }

  function CountWellFormed(lines: seq<string>): (k: nat)
    ensures k <= |lines|
  {
    if lines == [] then 0 else (if WellFormed(lines[0]) then 1 else 0) + CountWellFormed(lines[1..])
  }

  /** One pair per well-formed line: malformed lines add nothing and never stop the load. */
  lemma {:induction false} ParsedPairsLength(leftLang: Lang, rightLang: Lang, lines: seq<string>)
    ensures |ParsedPairs(leftLang, rightLang, lines)| == CountWellFormed(lines)
  {
    if lines != [] {
      ParsedPairsLength(leftLang, rightLang, lines[1..]);
    }
  }

  /** Parsing works line by line: the pairs of a concatenation are the pairs of the parts. */
  lemma {:induction false} ParsedPairsAppend(leftLang: Lang, rightLang: Lang, a: seq<string>, b: seq<string>)
    ensures ParsedPairs(leftLang, rightLang, a + b)
            == ParsedPairs(leftLang, rightLang, a) + ParsedPairs(leftLang, rightLang, b)
  {
    if a == [] {
      assert a + b == b;
    } else {
      assert (a + b)[1..] == a[1..] + b;
      ParsedPairsAppend(leftLang, rightLang, a[1..], b);
    }
  }

  /** When the two languages are the configured pair, every parsed pair is accepted. */
  lemma ParsedPairsValid(e: Embeddings, leftLang: Lang, rightLang: Lang, lines: seq<string>)
    requires e.Configured(leftLang) && e.Configured(rightLang) && leftLang != rightLang
    ensures FirstInvalid(e, ParsedPairs(leftLang, rightLang, lines)) == |ParsedPairs(leftLang, rightLang, lines)|
  {
    var pairs := ParsedPairs(leftLang, rightLang, lines);
    forall i | 0 <= i < |pairs|
      ensures ValidPair(e, pairs[i])
    {
      assert pairs[i] in pairs;
    }
    FirstInvalidOfValid(e, pairs);
  }

  lemma {:induction false} FirstInvalidOfValid(e: Embeddings, pairs: seq<SuppliedPair>)
    requires AllValid(e, pairs)
    ensures FirstInvalid(e, pairs) == |pairs|
  {
    if pairs != [] {
      FirstInvalidOfValid(e, pairs[1..]);
    }
  }

  /** The loader's loop: collects the pair of every well-formed line into a fresh list. */
  method CollectPairs(leftLang: Lang, rightLang: Lang, lines: seq<string>) returns (pairs: seq<SuppliedPair>)
    ensures pairs == ParsedPairs(leftLang, rightLang, lines)
    ensures |pairs| == CountWellFormed(lines)
  {
    pairs := [];
    var i := 0;
    while i < |lines|
      invariant 0 <= i <= |lines|
      invariant pairs == ParsedPairs(leftLang, rightLang, lines[..i])
    {
      var fields := Fields(lines[i]);
      ParsedPairsAppend(leftLang, rightLang, lines[..i], [lines[i]]);
      assert lines[..i + 1] == lines[..i] + [lines[i]];
      if |fields| == 2 {
        pairs := pairs + [((leftLang, fields[0]), (rightLang, fields[1]))];
      }
      i := i + 1;
    }
    assert lines[..i] == lines;
    ParsedPairsLength(leftLang, rightLang, lines);
  }
}
