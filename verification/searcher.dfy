/** `FuzzySearcher`: a corpus loaded once and searched read-only. */
module Searcher {
  import opened CorpusLoader
  import opened Scan

  /** The searcher owns its corpus and never changes it. */
  datatype FuzzySearcher = FuzzySearcher(corpus: Corpus)

  /** Construction from the outcome of reading `corpus/words.txt`, the file
      the constructor always reads whatever path it is given. */
  function New(file: FileContents): (r: Result<FuzzySearcher>)
    ensures r.Ok? <==> file.Contents?
    ensures file.Unopenable? ==> r == Err(UnableToOpenCorpusFile)
    ensures file.Unreadable? ==> r == Err(UnableToReadCorpusFileToString)
    ensures r.Ok? ==> r.value.corpus == Split(file.text)
    ensures r.Ok? ==> NoNewlines(r.value.corpus) && Join(r.value.corpus) == file.text
  {
    match LoadCorpus(file)
    case Ok(corpus) => Ok(FuzzySearcher(corpus))
    case Err(e) => Err(e)
  }

  /** `search`: the closest entry of the stored corpus. The result is a
      function of the query and the corpus alone, so repeated searches agree. */
  method Search(searcher: FuzzySearcher, arg: string) returns (r: string)
    ensures r == ClosestMatch(arg, searcher.corpus)
    ensures r in searcher.corpus
  {
    r := FindClosestStr(arg, searcher.corpus);
  }

  /** Any text, once loaded, is a corpus the scan accepts, and its entries
      are its lines. */
  lemma LoadedTextIsSearchable(text: string)
    ensures New(Contents(text)).Ok?
    ensures New(Contents(text)).value.corpus == Split(text)
    ensures |New(Contents(text)).value.corpus| == Occurrences('\n', text) + 1
  {
  }
}
