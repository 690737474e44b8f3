/** The corpus loader: the text of the corpus file is cut into its lines.

Only the pure splitting step is modelled; opening and reading the file are
represented by the `FileContents` value the operating system would have
produced.
 */
module CorpusLoader {

  /** The two ways loading can fail. */
  datatype FuzzySearchError = UnableToOpenCorpusFile | UnableToReadCorpusFileToString

  datatype Result<+T> = Ok(value: T) | Err(error: FuzzySearchError)

  /** What the file system hands back for the corpus path: it could not be
      opened; it opened, but reading it as UTF-8 text failed (invalid UTF-8
      or any other read error); or its whole text. */
  datatype FileContents = Unopenable | Unreadable | Contents(text: string)

  /** A corpus the scan can run on: it has a first entry. */
  type Corpus = c: seq<string> | |c| > 0 witness [""]

  /** The pieces contain no line separator. */
  predicate NoNewlines(lines: seq<string>)
  {
    forall i :: 0 <= i < |lines| ==> '\n' !in lines[i]
  }

  /** Number of occurrences of `c` in `s`. */
  function Occurrences(c: char, s: string): nat
  {
    if |s| == 0 then 0 else (if s[0] == c then 1 else 0) + Occurrences(c, s[1..])
  }

  /** Rust's `text.split("\n")`: the maximal newline-free pieces of `text`,
      in order, including the empty piece before a leading separator, after a
      trailing one and between two adjacent ones. */
  function Split(text: string): (lines: seq<string>)
    ensures |lines| == Occurrences('\n', text) + 1
    ensures NoNewlines(lines)
    decreases |text|
  {
    if |text| == 0 then [""]
    else
      var rest := Split(text[1..]);
      if text[0] == '\n' then [""] + rest
      else [[text[0]] + rest[0]] + rest[1..]
  }

  /** The inverse of `Split`: the pieces glued back together with `"\n"`. */
  function Join(lines: seq<string>): string
    requires |lines| > 0
  {
    if |lines| == 1 then lines[0] else lines[0] + "\n" + Join(lines[1..])
  }

  /** Splitting and re-joining gives back the original text. */
  lemma {:induction false} JoinSplit(text: string)
    ensures Join(Split(text)) == text
    decreases |text|
  {
    if |text| > 0 {
      var rest := Split(text[1..]);
      JoinSplit(text[1..]);
      if text[0] == '\n' {
        assert Split(text)[1..] == rest;
      } else {
        var lines := Split(text);
        if |rest| == 1 {
          assert lines == [[text[0]] + rest[0]];
        } else {
          assert lines[0] == [text[0]] + rest[0];
          assert lines[1..] == rest[1..];
          assert Join(lines) == [text[0]] + rest[0] + "\n" + Join(rest[1..]);
        }
        assert text == [text[0]] + text[1..];
      }
    }
  }

  /** Splitting a text whose first piece is the newline-free `p`. */
  lemma {:induction false} SplitPrefix(p: string, r: string)
    requires '\n' !in p
    ensures Split(p + r) == [p + Split(r)[0]] + Split(r)[1..]
    decreases |p|
  {
    if |p| > 0 {
      assert (p + r)[0] == p[0];
      assert (p + r)[1..] == p[1..] + r;
      SplitPrefix(p[1..], r);
      assert [p[0]] + (p[1..] + Split(r)[0]) == p + Split(r)[0];
    } else {
      assert p + r == r;
      assert p + Split(r)[0] == Split(r)[0];
      assert Split(r) == [Split(r)[0]] + Split(r)[1..];
    }
  }

  /** Joining newline-free pieces and splitting again gives back the pieces. */
  lemma {:induction false} SplitJoin(lines: seq<string>)
    requires |lines| > 0
    requires NoNewlines(lines)
    ensures Split(Join(lines)) == lines
    decreases |lines|
  {
    if |lines| == 1 {
      SplitPrefix(lines[0], "");
      assert lines[0] + "" == lines[0];
    } else {
      var tail := Join(lines[1..]);
      SplitJoin(lines[1..]);
      assert ("\n" + tail)[1..] == tail;
      assert Split("\n" + tail) == [""] + lines[1..];
      assert lines[0] + "\n" + tail == lines[0] + ("\n" + tail);
      SplitPrefix(lines[0], "\n" + tail);
      assert lines[0] + "" == lines[0];
    }
  }

  /** A text without separators is a single line of its own. */
  lemma SplitSingleLine(text: string)
    requires '\n' !in text
    ensures Split(text) == [text]
  {
    SplitPrefix(text, "");
    assert text + "" == text;
  }

  /** A trailing separator yields a trailing empty entry. */
  lemma SplitTrailingNewline()
    ensures Split("a\nb\nc\n") == ["a", "b", "c", ""]
    ensures Split("a\nb\nc") == ["a", "b", "c"]
  {
    SplitJoin(["a", "b", "c", ""]);
    assert Join(["a", "b", "c", ""]) == "a\nb\nc\n";
    SplitJoin(["a", "b", "c"]);
    assert Join(["a", "b", "c"]) == "a\nb\nc";
  }

  /** `load_corpus`: the read outcome mapped to an error or to the split
      text. */
  function LoadCorpus(file: FileContents): (r: Result<Corpus>)
    ensures file.Unopenable? <==> r == Err(UnableToOpenCorpusFile)
    ensures file.Unreadable? <==> r == Err(UnableToReadCorpusFileToString)
    ensures file.Contents? <==> r.Ok?
    ensures r.Ok? ==> Join(r.value) == file.text && NoNewlines(r.value)
  {
    match file
    case Unopenable => Err(UnableToOpenCorpusFile)
    case Unreadable => Err(UnableToReadCorpusFileToString)
    case Contents(text) =>
      JoinSplit(text);
      Ok(Split(text))
  }
}
