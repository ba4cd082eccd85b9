/** Splitting text on a one-character delimiter and joining it back, shared by
    the key/value text codec (delimiter ',') and the dump report (delimiter '\n'). */
module Text {

  /** Number of occurrences of `d` in `s`. */
  function Count(s: string, d: char): (n: nat)
    ensures n == 0 <==> d !in s
    decreases |s|
  {
    if s == [] then 0 else (if s[0] == d then 1 else 0) + Count(s[1..], d)
  }

  /** Every part between delimiters, empty parts included (a string without the
      delimiter is one part; "" is one empty part). */
  function Split(s: string, d: char): (parts: seq<string>)
    ensures |parts| >= 1
    decreases |s|
  {
    if s == [] then [[]]
    else
      var rest := Split(s[1..], d);
      assert s == [s[0]] + s[1..];
      if s[0] == d then [[]] + rest
      else [[s[0]] + rest[0]] + rest[1..]
  }

  /** No part holds the delimiter. */
  lemma {:induction false} SplitPartsFree(s: string, d: char)
    ensures forall i :: 0 <= i < |Split(s, d)| ==> d !in Split(s, d)[i]
    decreases |s|
  {
    if s != [] {
      SplitPartsFree(s[1..], d);
      assert s == [s[0]] + s[1..];
    }
  }

  /** The parts with one delimiter between consecutive parts. */
  function Join(parts: seq<string>, d: char): (s: string)
    requires |parts| >= 1
    decreases |parts|
  {
    if |parts| == 1 then parts[0] else parts[0] + [d] + Join(parts[1..], d)
  }

  /** There is one part more than there are delimiters. */
  lemma {:induction false} SplitCount(s: string, d: char)
    ensures |Split(s, d)| == Count(s, d) + 1
    decreases |s|
  {
    if s != [] {
      SplitCount(s[1..], d);
    }
  }

  /** Split unfolded once: a leading delimiter starts a new part, any other
      character joins the first part. */
  lemma SplitCons(c: char, t: string, d: char)
    ensures Split([c] + t, d) == if c == d then [[]] + Split(t, d) else [[c] + Split(t, d)[0]] + Split(t, d)[1..]
  {
    assert ([c] + t)[1..] == t;
  }

  /** Extending the first of the parts `left + right` extends the first of `left`. */
  lemma ExtendFirst(c: char, left: seq<string>, right: seq<string>)
    requires |left| >= 1
    ensures [[c] + (left + right)[0]] + (left + right)[1..] == [[c] + left[0]] + left[1..] + right
  {
    assert (left + right)[0] == left[0];
    assert (left + right)[1..] == left[1..] + right;
  }

  /** The inductive step of SplitAround for a leading non-delimiter `c`: it
      joins the first part on both sides. */
  lemma SplitAroundStep(c: char, a: string, d: char, b: string)
    requires c != d
    requires Split(a + [d] + b, d) == Split(a, d) + Split(b, d)
    ensures Split([c] + a + [d] + b, d) == Split([c] + a, d) + Split(b, d)
  {
    assert [c] + a + [d] + b == [c] + (a + [d] + b);
    SplitCons(c, a + [d] + b, d);
    SplitCons(c, a, d);
    ExtendFirst(c, Split(a, d), Split(b, d));
  }

  lemma AppendAssoc<T>(x: seq<T>, y: seq<T>, z: seq<T>)
    ensures x + (y + z) == x + y + z
  {
  }

  /** The inductive step of SplitAround for a leading delimiter: it adds an
      empty first part on both sides. */
  lemma SplitAroundDelimiterStep(a: string, d: char, b: string)
    requires Split(a + [d] + b, d) == Split(a, d) + Split(b, d)
    ensures Split([d] + a + [d] + b, d) == Split([d] + a, d) + Split(b, d)
  {
    assert [d] + a + [d] + b == [d] + (a + [d] + b);
    SplitCons(d, a + [d] + b, d);
    SplitCons(d, a, d);
    AppendAssoc([[]], Split(a, d), Split(b, d));
  }

  /** Splitting a concatenation at a delimiter splits the two sides separately. */
  lemma {:induction false} SplitAround(a: string, d: char, b: string)
    ensures Split(a + [d] + b, d) == Split(a, d) + Split(b, d)
    decreases |a|
  {
    if a == [] {
      assert a + [d] + b == [d] + b;
      SplitCons(d, b, d);
    } else {
      var c, a' := a[0], a[1..];
      assert a == [c] + a';
      SplitAround(a', d, b);
      if c == d {
        SplitAroundDelimiterStep(a', d, b);
      } else {
        SplitAroundStep(c, a', d, b);
      }
    }
  }

  /** A string free of the delimiter is a single part. */
  lemma {:induction false} SplitNoDelimiter(s: string, d: char)
    requires d !in s
    ensures Split(s, d) == [s]
    decreases |s|
  {
    if s != [] {
      SplitNoDelimiter(s[1..], d);
      assert s == [s[0]] + s[1..];
    }
  }

  /** Split undoes Join when no part holds the delimiter. */
  lemma {:induction false} SplitJoin(parts: seq<string>, d: char)
    requires |parts| >= 1
    requires forall i :: 0 <= i < |parts| ==> d !in parts[i]
    ensures Split(Join(parts, d), d) == parts
    decreases |parts|
  {
    SplitNoDelimiter(parts[0], d);
    if |parts| > 1 {
      SplitJoin(parts[1..], d);
      SplitAround(parts[0], d, Join(parts[1..], d));
      assert parts == [parts[0]] + parts[1..];
    }
  }

  /** Join unfolded once on a leading part. */
  lemma JoinCons(x: string, rest: seq<string>, d: char)
    requires |rest| >= 1
    ensures Join([x] + rest, d) == x + [d] + Join(rest, d)
  {
    assert ([x] + rest)[1..] == rest;
  }

  /** Extending the first part by `c` extends the joined text by `c` in front. */
  lemma JoinExtendFirst(c: char, parts: seq<string>, d: char)
    requires |parts| >= 1
    ensures Join([[c] + parts[0]] + parts[1..], d) == [c] + Join(parts, d)
  {
    if |parts| > 1 {
      JoinCons([c] + parts[0], parts[1..], d);
      assert [c] + parts[0] + [d] + Join(parts[1..], d) == [c] + (parts[0] + [d] + Join(parts[1..], d));
    }
  }

  /** Join undoes Split: no character is lost or added. */
  lemma {:induction false} JoinSplit(s: string, d: char)
    ensures Join(Split(s, d), d) == s
    decreases |s|
  {
    if s != [] {
      var c, t := s[0], s[1..];
      assert s == [c] + t;
      JoinSplit(t, d);
      SplitCons(c, t, d);
      if c == d {
        JoinCons([], Split(t, d), d);
      } else {
        JoinExtendFirst(c, Split(t, d), d);
      }
    }
  }

  /** The lines, each followed by a line feed, as written by successive println calls. */
  function Unlines(lines: seq<string>): (s: string)
    decreases |lines|
  {
    if lines == [] then [] else lines[0] + "\n" + Unlines(lines[1..])
  }

  lemma UnlinesThree(a: string, b: string, c: string)
    ensures Unlines([a, b, c]) == a + "\n" + b + "\n" + c + "\n"
  {
    assert [a, b, c][1..] == [b, c];
    assert [b, c][1..] == [c];
    assert [c][1..] == [];
    assert Unlines([c]) == c + "\n";
    assert Unlines([b, c]) == b + "\n" + (c + "\n");
  }

  /** Writing one more line appends it and its line feed. */
  lemma {:induction false} UnlinesSnoc(lines: seq<string>, line: string)
    ensures Unlines(lines + [line]) == Unlines(lines) + line + "\n"
    decreases |lines|
  {
    if lines == [] {
      assert [] + [line] == [line];
    } else {
      UnlinesSnoc(lines[1..], line);
      assert (lines + [line])[1..] == lines[1..] + [line];
    }
  }

  /** Text made of lines free of line feeds splits back into those lines, plus
      the empty remainder after the last line feed. */
  lemma {:induction false} SplitUnlines(lines: seq<string>)
    requires forall i :: 0 <= i < |lines| ==> '\n' !in lines[i]
    ensures Split(Unlines(lines), '\n') == lines + [[]]
    decreases |lines|
  {
    if lines != [] {
      SplitUnlines(lines[1..]);
      SplitNoDelimiter(lines[0], '\n');
      SplitAround(lines[0], '\n', Unlines(lines[1..]));
      assert lines[0] + "\n" + Unlines(lines[1..]) == lines[0] + ['\n'] + Unlines(lines[1..]);
      assert lines == [lines[0]] + lines[1..];
    }
  }

  /** Decimal digits of `n`, without sign or leading zeros. */
  function Decimal(n: nat): (s: string)
    ensures |s| >= 1
    decreases n
  {
    if n < 10 then [(48 + n) as char] else Decimal(n / 10) + [(48 + n % 10) as char]
  }

  /** The decimal text holds digits only. */
  lemma {:induction false} DecimalDigits(n: nat)
    ensures forall i :: 0 <= i < |Decimal(n)| ==> '0' <= Decimal(n)[i] <= '9'
    decreases n
  {
    if n >= 10 {
      DecimalDigits(n / 10);
    }
  }

  /** The number a string of decimal digits denotes, most significant first. */
  function DigitsValue(s: string): int
    decreases |s|
  {
    if s == [] then 0 else 10 * DigitsValue(s[..|s| - 1]) + (s[|s| - 1] as int - 48)
  }

  /** Reading the decimal text back gives the number, and only 0 is written
      with a leading '0'. */
  lemma {:induction false} DecimalValue(n: nat)
    ensures DigitsValue(Decimal(n)) == n
    ensures Decimal(n)[0] == '0' <==> n == 0
    decreases n
  {
    if n >= 10 {
      DecimalValue(n / 10);
      var s := Decimal(n);
      assert s[..|s| - 1] == Decimal(n / 10);
    }
  }
}
