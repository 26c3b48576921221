/**
 The two pieces of .NET text handling the generator relies on: `String.Split` with a
 single separator character, and a `StringReader` read line by line with `Peek` and
 `ReadLine`. Only '\n' is treated as a line break.
 */
module Text {

  /** The first index at or after `from` where `s` holds `c`, or `|s|` when there is none. */
  function IndexOf(s: string, c: char, from: nat): (i: nat)
    requires from <= |s|
    ensures from <= i <= |s|
    ensures i < |s| ==> s[i] == c
    decreases |s| - from
  {
    if from == |s| || s[from] == c then from else IndexOf(s, c, from + 1)
  }

  /** `IndexOf` finds the first occurrence: `c` is nowhere between `from` and the result. */
  lemma {:induction false} IndexOfFirst(s: string, c: char, from: nat)
    requires from <= |s|
    ensures forall k :: from <= k < IndexOf(s, c, from) ==> s[k] != c
    decreases |s| - from
  {
    if from < |s| && s[from] != c {
      IndexOfFirst(s, c, from + 1);
    }
  }

  /** The first-occurrence property pins `IndexOf` down. */
  lemma {:induction false} IndexOfIs(s: string, c: char, from: nat, j: nat)
    requires from <= j <= |s|
    requires j < |s| ==> s[j] == c
    requires forall k :: from <= k < j ==> s[k] != c
    ensures IndexOf(s, c, from) == j
    decreases j - from
  {
    if from < j {
      IndexOfIs(s, c, from + 1, j);
    }
  }

  /** Splitting at the first separator. */
  lemma SplitAt(s: string, sep: char, i: nat)
    requires i <= |s|
    requires i < |s| ==> s[i] == sep
    requires forall k :: 0 <= k < i ==> s[k] != sep
    ensures i == |s| ==> Split(s, sep) == [s]
    ensures i < |s| ==> Split(s, sep) == [s[..i]] + Split(s[i + 1..], sep)
  {
    IndexOfIs(s, sep, 0, i);
  }

  /**
   `s.Split(sep)`: the fields between separators, empty ones included, with no
   trimming and no quoting. The text "" has the single field "".
   */
  function Split(s: string, sep: char): (fields: seq<string>)
    ensures |fields| >= 1
    decreases |s|
  {
    var i := IndexOf(s, sep, 0);
    if i == |s| then [s] else [s[..i]] + Split(s[i + 1..], sep)
  }

  /** No field holds the separator. */
  lemma {:induction false} SplitNoSeparator(s: string, sep: char)
    ensures forall k :: 0 <= k < |Split(s, sep)| ==> sep !in Split(s, sep)[k]
    decreases |s|
  {
    var i := IndexOf(s, sep, 0);
    IndexOfFirst(s, sep, 0);
    if i < |s| {
      SplitNoSeparator(s[i + 1..], sep);
      var rest := Split(s[i + 1..], sep);
      assert Split(s, sep) == [s[..i]] + rest;
      forall k | 0 <= k < |Split(s, sep)| ensures sep !in Split(s, sep)[k] {
        if k > 0 {
          assert Split(s, sep)[k] == rest[k - 1];
        }
      }
    }
  }

  /** The fields put back together with `sep` between neighbours. */
  function Join(fields: seq<string>, sep: char): string
  {
    if fields == [] then ""
    else if |fields| == 1 then fields[0]
    else fields[0] + [sep] + Join(fields[1..], sep)
  }

  /** Splitting loses nothing: joining the fields gives the text back. */
  lemma {:induction false} JoinSplit(s: string, sep: char)
    ensures Join(Split(s, sep), sep) == s
    decreases |s|
  {
    var i := IndexOf(s, sep, 0);
    if i < |s| {
      JoinSplit(s[i + 1..], sep);
      assert s == s[..i] + [sep] + s[i + 1..];
    }
  }

  /** Every non-empty list of separator-free fields is what splitting its join gives. */
  lemma {:induction false} SplitJoin(fields: seq<string>, sep: char)
    requires |fields| >= 1
    requires forall k :: 0 <= k < |fields| ==> sep !in fields[k]
    ensures Split(Join(fields, sep), sep) == fields
    decreases |fields|
  {
    if |fields| > 1 {
      var s := Join(fields, sep);
      var f := fields[0];
      assert s == f + [sep] + Join(fields[1..], sep);
      forall k | 0 <= k < |f| ensures s[k] != sep {
        assert s[k] == f[k];
      }
      IndexOfIs(s, sep, 0, |f|);
      assert s[..|f|] == f;
      assert s[|f| + 1..] == Join(fields[1..], sep);
      SplitJoin(fields[1..], sep);
    } else {
      IndexOfIs(fields[0], sep, 0, |fields[0]|);
    }
  }

  /**
   The lines a `StringReader` over `text` hands out, one per `ReadLine` while
   `Peek() >= 0`: the text up to the next '\n', which is consumed and not returned.
   */
  function Lines(text: string): (lines: seq<string>)
    decreases |text|
  {
    if text == [] then []
    else
      var i := IndexOf(text, '\n', 0);
      if i == |text| then [text] else [text[..i]] + Lines(text[i + 1..])
  }

  /**
   Reading lines is splitting on '\n', except that empty text has no line at all and
   one final '\n' does not start another line. A line that is empty between two
   breaks is still a line.
   */
  lemma {:induction false} LinesAsSplit(text: string)
    ensures text == [] ==> Lines(text) == []
    ensures text != [] && text[|text| - 1] == '\n' ==> Lines(text) == Split(text[..|text| - 1], '\n')
    ensures text != [] && text[|text| - 1] != '\n' ==> Lines(text) == Split(text, '\n')
    decreases |text|
  {
    if text != [] {
      var i := IndexOf(text, '\n', 0);
      IndexOfFirst(text, '\n', 0);
      if i == |text| {
        SplitAt(text, '\n', i);
      } else if i == |text| - 1 {
        SplitAt(text[..i], '\n', i);
      } else {
        var rest := text[i + 1..];
        LinesAsSplit(rest);
        LinesAsSplitStep(text, i);
      }
    }
  }

  /** The step of `LinesAsSplit`: a first line followed by non-empty text. */
  lemma LinesAsSplitStep(text: string, i: nat)
    requires i + 1 < |text| && text[i] == '\n'
    requires forall k :: 0 <= k < i ==> text[k] != '\n'
    requires var rest := text[i + 1..];
      Lines(rest) == Split(if rest[|rest| - 1] == '\n' then rest[..|rest| - 1] else rest, '\n')
    ensures Lines(text) == Split(if text[|text| - 1] == '\n' then text[..|text| - 1] else text, '\n')
  {
    var rest := text[i + 1..];
    IndexOfIs(text, '\n', 0, i);
    assert Lines(text) == [text[..i]] + Lines(rest);
    var body := if text[|text| - 1] == '\n' then text[..|text| - 1] else text;
    var restBody := if rest[|rest| - 1] == '\n' then rest[..|rest| - 1] else rest;
    assert body == text[..i] + ['\n'] + restBody;
    assert body[..i] == text[..i];
    assert body[i + 1..] == restBody;
    SplitAt(body, '\n', i);
  }

  /** A single line break at the end of non-empty text adds no line. */
  lemma TrailingBreakAddsNoLine(text: string)
    requires text != [] && text[|text| - 1] != '\n'
    ensures Lines(text + "\n") == Lines(text)
  {
    LinesAsSplit(text);
    LinesAsSplit(text + "\n");
    assert (text + "\n")[..|text|] == text;
  }

  /** A `System.IO.StringReader`: the text and the position of the next character to read. */
  class StringReader {
    const text: string
    var pos: nat

    ghost predicate Valid()
      reads this
    {
      pos <= |text|
    }

    /** The lines the remaining `ReadLine` calls will return. */
    ghost function Remaining(): seq<string>
      reads this
      requires Valid()
    {
      Lines(text[pos..])
    }

    constructor (s: string)
      ensures Valid() && text == s && Remaining() == Lines(s)
    {
      text := s;
      pos := 0;
    }

    /** The next character as a non-negative code, or -1 at the end of the text. */
    method Peek() returns (c: int)
      requires Valid()
      ensures c >= 0 <==> Remaining() != []
      ensures c >= 0 ==> c == text[pos] as int
      ensures c < 0 ==> c == -1
    {
      c := if pos < |text| then text[pos] as int else -1;
    }

    /** Returns the next line and moves past it and its line break. */
    method ReadLine() returns (line: string)
      requires Valid() && Remaining() != []
      modifies this
      ensures Valid()
      ensures [line] + Remaining() == old(Remaining())
    {
      var i := pos;
      while i < |text| && text[i] != '\n'
        invariant pos <= i <= |text|
        invariant forall k :: pos <= k < i ==> text[k] != '\n'
      {
        i := i + 1;
      }
      ghost var rest := text[pos..];
      IndexOfIs(rest, '\n', 0, i - pos);
      assert rest[..i - pos] == text[pos..i];
      if i < |text| {
        assert rest[i - pos + 1..] == text[i + 1..];
        assert Lines(rest) == [text[pos..i]] + Lines(text[i + 1..]);
      } else {
        assert rest != [] && text[pos..i] == rest;
        assert Lines(rest) == [text[pos..i]];
        assert text[i..] == [];
      }
      line := text[pos..i];
      pos := if i < |text| then i + 1 else i;
    }
  }
}
