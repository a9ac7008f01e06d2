/** The parts of Go's `strings` package that the simulator relies on. */
module Text {

  /** `strings.Split` for a one-character separator. */
  function Split(s: string, sep: char): (parts: seq<string>)
    ensures |parts| >= 1
  {
    if s == "" then [""]
    else
      var rest := Split(s[1..], sep);
      if s[0] == sep then [""] + rest else [[s[0]] + rest[0]] + rest[1..]
  }

  /** `strings.Join` */
  function Join(parts: seq<string>, sep: string): string {
    if |parts| == 0 then ""
    else if |parts| == 1 then parts[0]
    else parts[0] + sep + Join(parts[1..], sep)
  }

  function TrimLeft(s: string, c: char): string {
    if s != "" && s[0] == c then TrimLeft(s[1..], c) else s
  }

  function TrimRight(s: string, c: char): string {
    if s != "" && s[|s| - 1] == c then TrimRight(s[..|s| - 1], c) else s
  }

  /** `strings.Trim` of a single character. */
  function Trim(s: string, c: char): string {
    TrimRight(TrimLeft(s, c), c)
  }

  /** A word is what a command line keeps as one argument: not empty and without a blank. */
  predicate IsWord(s: string) {
    s != "" && ' ' !in s
  }

  /** The arguments that are not empty, in order. */
  function Words(tokens: seq<string>): seq<string> {
    if tokens == [] then []
    else (if tokens[0] == "" then [] else [tokens[0]]) + Words(tokens[1..])
  }

  /** A text without the separator is a single part. */
  lemma {:induction false} SplitSingle(s: string, sep: char)
    requires sep !in s
    ensures Split(s, sep) == [s]
  {
    if s != "" {
      SplitSingle(s[1..], sep);
      assert [s[0]] + s[1..] == s;
    }
  }

  /** Puts a character in front of the first part. */
  function Prepend(c: char, parts: seq<string>): seq<string>
    requires |parts| >= 1
  {
    [[c] + parts[0]] + parts[1..]
  }

  lemma SplitFirst(c: char, s: string, sep: char)
    ensures Split([c] + s, sep) == if c == sep then [""] + Split(s, sep) else Prepend(c, Split(s, sep))
  {
    assert ([c] + s)[1..] == s;
  }

  lemma PrependConcat(c: char, p: seq<string>, q: seq<string>)
    requires |p| >= 1
    ensures Prepend(c, p + q) == Prepend(c, p) + q
  {
    assert (p + q)[1..] == p[1..] + q;
  }

  lemma SplitConcatStep(c: char, a: string, b: string, whole: string, sep: char)
    requires Split(whole, sep) == Split(a, sep) + Split(b, sep)
    ensures Split([c] + whole, sep) == Split([c] + a, sep) + Split(b, sep)
  {
    SplitFirst(c, a, sep);
    SplitFirst(c, whole, sep);
    hide Split, Prepend;
    if c == sep {
      assert [""] + (Split(a, sep) + Split(b, sep)) == [""] + Split(a, sep) + Split(b, sep);
    } else {
      PrependConcat(c, Split(a, sep), Split(b, sep));
    }
  }

  /** Splitting cuts at every separator, whatever surrounds it. */
  lemma {:induction false} SplitConcat(a: string, b: string, sep: char)
    ensures Split(a + [sep] + b, sep) == Split(a, sep) + Split(b, sep)
  {
    if a == "" {
      SplitFirst(sep, b, sep);
      assert a + [sep] + b == [sep] + b;
    } else {
      SplitConcat(a[1..], b, sep);
      SplitConcatStep(a[0], a[1..], b, a[1..] + [sep] + b, sep);
      hide Split;
      assert [a[0]] + a[1..] == a;
      assert [a[0]] + (a[1..] + [sep] + b) == a + [sep] + b;
    }
  }

  /** Split undoes Join on parts that do not contain the separator. */
  lemma {:induction false} SplitJoin(parts: seq<string>, sep: char)
    requires |parts| >= 1
    requires forall i :: 0 <= i < |parts| ==> sep !in parts[i]
    ensures Split(Join(parts, [sep]), sep) == parts
  {
    SplitSingle(parts[0], sep);
    if |parts| > 1 {
      SplitJoin(parts[1..], sep);
      SplitConcat(parts[0], Join(parts[1..], [sep]), sep);
      hide Split;
      assert parts == [parts[0]] + parts[1..];
    }
  }

  /** A last part that contains the separator is cut further, and nothing else is. */
  lemma {:induction false} SplitJoinLast(parts: seq<string>, last: string, sep: char)
    requires forall i :: 0 <= i < |parts| ==> sep !in parts[i]
    ensures Split(Join(parts + [last], [sep]), sep) == parts + Split(last, sep)
  {
    if parts == [] {
      assert parts + [last] == [last];
    } else {
      var rest := parts[1..] + [last];
      SplitJoinLast(parts[1..], last, sep);
      SplitSingle(parts[0], sep);
      SplitConcat(parts[0], Join(rest, [sep]), sep);
      hide Split;
      assert parts + [last] == [parts[0]] + rest && (parts + [last])[1..] == rest;
      assert [parts[0]] + (parts[1..] + Split(last, sep)) == parts + Split(last, sep);
    }
  }

  lemma WordsFirst(token: string, rest: seq<string>)
    ensures Words([token] + rest) == (if token == "" then [] else [token]) + Words(rest)
  {
    assert ([token] + rest)[1..] == rest;
  }

  lemma {:induction false} WordsConcat(a: seq<string>, b: seq<string>)
    ensures Words(a + b) == Words(a) + Words(b)
  {
    if a == [] {
      assert a + b == b;
    } else {
      WordsConcat(a[1..], b);
      WordsFirst(a[0], a[1..]);
      WordsFirst(a[0], a[1..] + b);
      hide Words;
      assert a == [a[0]] + a[1..] && a + b == [a[0]] + (a[1..] + b);
    }
  }

  lemma {:induction false} WordsAll(tokens: seq<string>)
    requires forall i :: 0 <= i < |tokens| ==> tokens[i] != ""
    ensures Words(tokens) == tokens
  {
    if tokens != [] {
      WordsAll(tokens[1..]);
      WordsFirst(tokens[0], tokens[1..]);
      assert tokens == [tokens[0]] + tokens[1..];
    }
  }
}
