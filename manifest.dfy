/**
 * The manifest reader of `convert_image_pair`: every line of the list file
 * must split, at single spaces, into exactly three tokens (source A, source
 * B, label); accepted lines are kept in file order. An optional shuffle then
 * permutes the parsed entries.
 */
module Manifest {
  import opened Wrappers
  import opened Tokenizer

  /** The separator `split` uses by default. */
  const SEPARATOR: char := ' '

  /** One accepted manifest line. `L` is the parsed label (a `double` in the program), carried unchanged. */
  datatype Entry<L> = Entry(sourceA: string, sourceB: string, labelValue: L)

  /**
   * Why parsing stopped. The line counter reported by the program is
   * initialised to 0 and never advanced, so `MalformedLine` always carries 0.
   * `InvalidLabel` is the exception the label conversion throws for a token
   * it cannot read as a number.
   */
  datatype ParseError = MalformedLine(lineNo: int) | InvalidLabel(token: string)

  /** One line: three tokens and a readable label, or the error it raises. */
  function ParseLine<L>(line: string, toLabel: string -> Option<L>): Result<Entry<L>, ParseError>
  {
    var tokens := Tokens(line, SEPARATOR);
    if |tokens| != 3 then Failure(MalformedLine(0))
    else match toLabel(tokens[2])
      case None => Failure(InvalidLabel(tokens[2]))
      case Some(v) => Success(Entry(tokens[0], tokens[1], v))
  }

  /** The whole list file, line by line in file order; the first bad line ends parsing. */
  function Parse<L>(lines: seq<string>, toLabel: string -> Option<L>): (r: Result<seq<Entry<L>>, ParseError>)
    ensures r.Success? ==> |r.value| == |lines|
  {
    if lines == [] then Success([])
    else match Parse(lines[..|lines| - 1], toLabel)
      case Failure(e) => Failure(e)
      case Success(entries) =>
        match ParseLine(lines[|lines| - 1], toLabel)
        case Failure(e) => Failure(e)
        case Success(entry) => Success(entries + [entry])
  }

  /** A failure in a prefix is the failure of the whole file: later lines are never read. */
  lemma {:induction false} ParseFailureSticks<L>(lines: seq<string>, toLabel: string -> Option<L>, k: nat)
    requires k <= |lines|
    requires Parse(lines[..k], toLabel).Failure?
    ensures Parse(lines, toLabel) == Parse(lines[..k], toLabel)
    decreases |lines| - k
  {
    if k < |lines| {
      assert lines[..k + 1][..k] == lines[..k];
      ParseFailureSticks(lines, toLabel, k + 1);
    } else {
      assert lines[..k] == lines;
    }
  }

  /**
   * Parsing succeeds exactly when every line parses, and then yields one
   * entry per line, in file order, built from tokens 0, 1 and 2 of that line.
   */
  lemma {:induction false} ParseSuccess<L>(lines: seq<string>, toLabel: string -> Option<L>)
    ensures Parse(lines, toLabel).Success? <==>
      forall i :: 0 <= i < |lines| ==> ParseLine(lines[i], toLabel).Success?
    ensures Parse(lines, toLabel).Success? ==>
      var entries := Parse(lines, toLabel).value;
      |entries| == |lines| &&
      forall i :: 0 <= i < |lines| ==>
        |Tokens(lines[i], SEPARATOR)| == 3 &&
        toLabel(Tokens(lines[i], SEPARATOR)[2]).Some? &&
        entries[i] == Entry(Tokens(lines[i], SEPARATOR)[0], Tokens(lines[i], SEPARATOR)[1],
                            toLabel(Tokens(lines[i], SEPARATOR)[2]).value)
  {
    if lines != [] {
      var init := lines[..|lines| - 1];
      ParseSuccess(init, toLabel);
      assert forall i :: 0 <= i < |init| ==> init[i] == lines[i];
    }
  }

  /** Whatever goes wrong, a malformed line is reported as line 0. */
  lemma {:induction false} ParseErrorLineIsZero<L>(lines: seq<string>, toLabel: string -> Option<L>)
    ensures Parse(lines, toLabel).Failure? && Parse(lines, toLabel).error.MalformedLine? ==>
      Parse(lines, toLabel).error.lineNo == 0
  {
    if lines != [] {
      ParseErrorLineIsZero(lines[..|lines| - 1], toLabel);
    }
  }

  /**
   * The shape test: a NUL-free line has three tokens exactly when it holds
   * exactly two spaces. Leading, trailing or doubled spaces are not skipped.
   */
  lemma LineShape(line: string)
    requires NUL !in line
    ensures |Tokens(line, SEPARATOR)| == 3 <==> Count(line, SEPARATOR) == 2
  {
    TokensCount(line, SEPARATOR);
  }

  /** An empty line has one (empty) token and is refused. */
  lemma EmptyLineRejected<L>(toLabel: string -> Option<L>)
    ensures ParseLine([], toLabel) == Failure(MalformedLine(0))
  {
    assert Tokens([], SEPARATOR) == [[]];
  }

  /** Three space-free fields written with single spaces between them come back as the entry. */
  lemma WellFormedLine<L>(a: string, b: string, t: string, toLabel: string -> Option<L>)
    requires SEPARATOR !in a && SEPARATOR !in b && SEPARATOR !in t
    requires NUL !in a && NUL !in b && NUL !in t
    ensures ParseLine(a + [SEPARATOR] + b + [SEPARATOR] + t, toLabel) ==
      match toLabel(t)
      case None => Failure(InvalidLabel(t))
      case Some(v) => Success(Entry(a, b, v))
  {
    var line := a + [SEPARATOR] + b + [SEPARATOR] + t;
    assert Tokens(line, SEPARATOR) == [a, b, t] by {
      assert Join([a, b, t], SEPARATOR) == line by {
        assert Join([b, t], SEPARATOR) == b + [SEPARATOR] + t by {
          assert [b, t][1..] == [t];
        }
        assert [a, b, t][1..] == [b, t];
      }
      SplitOnJoin([a, b, t], SEPARATOR);
      assert NUL !in line;
      CStringWhole(line);
    }
  }

  /** The parse loop: split each line, refuse it unless it has three tokens, append the entry. */
  method ParseManifest<L>(lines: seq<string>, toLabel: string -> Option<L>)
    returns (r: Result<seq<Entry<L>>, ParseError>)
    ensures r == Parse(lines, toLabel)
  {
    var entries: seq<Entry<L>> := [];
    var lineNo := 0;
    var k := 0;
    while k < |lines|
      invariant 0 <= k <= |lines|
      invariant Parse(lines[..k], toLabel) == Success(entries)
    {
      assert lines[..k + 1][..k] == lines[..k];
      var tokens := Split(lines[k], SEPARATOR);
      if |tokens| != 3 {
        ParseFailureSticks(lines, toLabel, k + 1);
        return Failure(MalformedLine(lineNo));
      }
      var parsed := toLabel(tokens[2]);
      if parsed.None? {
        ParseFailureSticks(lines, toLabel, k + 1);
        return Failure(InvalidLabel(tokens[2]));
      }
      entries := entries + [Entry(tokens[0], tokens[1], parsed.value)];
      k := k + 1;
    }
    assert lines[..k] == lines;
    r := Success(entries);
  }

  /**
   * The optional shuffle: a Fisher-Yates pass from the last position down,
   * swapping position `i` with a position drawn from `0..i`. The random
   * source is the parameter `draw`; whatever it returns, the result is a
   * rearrangement of the input.
   */
  method Shuffle<T>(lines: seq<T>, draw: nat -> nat) returns (shuffled: seq<T>)
    ensures |shuffled| == |lines|
    ensures multiset(shuffled) == multiset(lines)
  {
    shuffled := lines;
    var i := |lines| - 1;
    while i > 0
      invariant i < |lines| || |lines| == 0
      invariant |shuffled| == |lines|
      invariant multiset(shuffled) == multiset(lines)
    {
      var j := draw(i) % (i + 1);
      shuffled := Swap(shuffled, i, j);
      i := i - 1;
    }
  }

  /** `std::iter_swap` on two positions of the sequence. */
  function Swap<T>(s: seq<T>, i: nat, j: nat): (r: seq<T>)
    requires i < |s| && j < |s|
    ensures |r| == |s| && r[i] == s[j] && r[j] == s[i]
    ensures forall k :: 0 <= k < |s| && k != i && k != j ==> r[k] == s[k]
    ensures multiset(r) == multiset(s)
  {
    s[i := s[j]][j := s[i]]
  }
}
