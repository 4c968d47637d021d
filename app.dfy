/**
 * The `App` component's submit action, `handleShortenURL`: the ordered
 * validation of the input field and the append of one new entry.
 *
 * The URL check `isValidURL` wraps the browser's URL parser and is taken as a
 * parameter, as is the clock reading the encoder mixes in.
 */
module App {
  import opened Encoder

  datatype Option<T> = None | Some(value: T)

  /** One row of the list: the long URL, its short URL and its short code. */
  datatype Entry = Entry(original: string, shortened: string, shortCode: string)

  const ShortURLPrefix: string := "http://short.url/"

  const EmptyURLError: string := "Please enter a URL"
  const InvalidURLError: string := "Invalid URL format"
  const DuplicateURLError: string := "URL already shortened"

  /** The entry created for a long URL and its freshly generated code. */
  function NewEntry(longURL: string, shortCode: string): Entry
  {
    Entry(longURL, ShortURLPrefix + shortCode, shortCode)
  }

  /** `shortenedURLs.find(url => url.original === longURL)`: the first entry for that URL. */
  function FindByOriginal(entries: seq<Entry>, longURL: string): (r: Option<Entry>)
    ensures r.None? <==> forall i :: 0 <= i < |entries| ==> entries[i].original != longURL
    ensures r.Some? ==> exists i :: 0 <= i < |entries| && entries[i] == r.value &&
                          r.value.original == longURL &&
                          forall j :: 0 <= j < i ==> entries[j].original != longURL
  {
    if entries == [] then None
    else if entries[0].original == longURL then Some(entries[0])
    else
      var r := FindByOriginal(entries[1..], longURL);
      assert r.Some? ==> var i :| 0 <= i < |entries| - 1 && entries[1..][i] == r.value &&
                           forall j :: 0 <= j < i ==> entries[1..][j].original != longURL;
                         entries[i + 1] == r.value;
      r
  }

  /** No two entries of the list have the same original URL. */
  predicate DistinctOriginals(entries: seq<Entry>)
  {
    forall i, j :: 0 <= i < j < |entries| ==> entries[i].original != entries[j].original
  }

  /** The component's state that the submit action reads and writes. */
  datatype State = State(longURL: string, shortenedURLs: seq<Entry>, error: string)

  /**
   * The state after one submit: the error text of the first check that fails,
   * or, when all pass, one new entry at the end, an empty input and no error.
   */
  function Submit(s: State, isValidURL: string -> bool, timestamp: int): State
  {
    if s.longURL == "" then s.(error := EmptyURLError)
    else if !isValidURL(s.longURL) then s.(error := InvalidURLError)
    else if FindByOriginal(s.shortenedURLs, s.longURL).Some? then s.(error := DuplicateURLError)
    else State("", s.shortenedURLs + [NewEntry(s.longURL, ShortCodeOf(s.longURL, timestamp))], "")
  }

  /** An empty input is reported first, whatever the validator would say; nothing else changes. */
  lemma SubmitEmptyInput(s: State, isValidURL: string -> bool, timestamp: int)
    requires s.longURL == ""
    ensures Submit(s, isValidURL, timestamp) == s.(error := EmptyURLError)
  {
  }

  /** A non-empty input the validator rejects is reported; list and input stay as they were. */
  lemma SubmitInvalidInput(s: State, isValidURL: string -> bool, timestamp: int)
    requires s.longURL != "" && !isValidURL(s.longURL)
    ensures Submit(s, isValidURL, timestamp) == s.(error := InvalidURLError)
  {
  }

  /** A valid input that is already some entry's original is reported and adds no entry. */
  lemma SubmitDuplicateInput(s: State, isValidURL: string -> bool, timestamp: int, i: nat)
    requires s.longURL != "" && isValidURL(s.longURL)
    requires i < |s.shortenedURLs| && s.shortenedURLs[i].original == s.longURL
    ensures Submit(s, isValidURL, timestamp) == s.(error := DuplicateURLError)
  {
  }

  /**
   * A non-empty, valid, new input is appended as exactly one entry whose code
   * has six alphabet characters; earlier entries are kept, the input is
   * cleared and there is no error.
   */
  lemma SubmitNewInput(s: State, isValidURL: string -> bool, timestamp: int)
    requires s.longURL != "" && isValidURL(s.longURL)
    requires forall i :: 0 <= i < |s.shortenedURLs| ==> s.shortenedURLs[i].original != s.longURL
    ensures var t := Submit(s, isValidURL, timestamp);
      var code := ShortCodeOf(s.longURL, timestamp);
      && t.shortenedURLs == s.shortenedURLs + [Entry(s.longURL, "http://short.url/" + code, code)]
      && |code| == 6 && (forall k :: 0 <= k < 6 ==> code[k] in Characters)
      && t.longURL == "" && t.error == ""
  {
    ShortCodeShape(s.longURL, timestamp);
  }

  /**
   * Error and success exclude each other: a submit either appends one entry
   * and clears input and error, or keeps list and input and sets one of the
   * three messages.
   */
  lemma SubmitOutcomes(s: State, isValidURL: string -> bool, timestamp: int)
    ensures var t := Submit(s, isValidURL, timestamp);
      || (&& |t.shortenedURLs| == |s.shortenedURLs| + 1
          && t.shortenedURLs[..|s.shortenedURLs|] == s.shortenedURLs
          && t.shortenedURLs[|s.shortenedURLs|].original == s.longURL
          && t.longURL == "" && t.error == "")
      || (&& t.shortenedURLs == s.shortenedURLs && t.longURL == s.longURL
          && t.error in {EmptyURLError, InvalidURLError, DuplicateURLError})
  {
    var t := Submit(s, isValidURL, timestamp);
    if |t.shortenedURLs| != |s.shortenedURLs| {
      assert t.shortenedURLs[..|s.shortenedURLs|] == s.shortenedURLs;
    }
  }

  /** Submit never lets a second entry for the same original URL into the list. */
  lemma SubmitPreservesDistinctOriginals(s: State, isValidURL: string -> bool, timestamp: int)
    requires DistinctOriginals(s.shortenedURLs)
    ensures DistinctOriginals(Submit(s, isValidURL, timestamp).shortenedURLs)
  {
    var t := Submit(s, isValidURL, timestamp);
    if t.shortenedURLs != s.shortenedURLs {
      var n := |s.shortenedURLs|;
      forall i, j | 0 <= i < j < |t.shortenedURLs|
        ensures t.shortenedURLs[i].original != t.shortenedURLs[j].original
      {
        if j == n {
          assert t.shortenedURLs[i] == s.shortenedURLs[i];
        }
      }
    }
  }

  /** Typing the same valid URL again after a successful submit is refused as a duplicate. */
  lemma SubmitTwice(s: State, isValidURL: string -> bool, first: int, second: int)
    requires s.longURL != "" && isValidURL(s.longURL)
    requires FindByOriginal(s.shortenedURLs, s.longURL).None?
    ensures var t := Submit(s, isValidURL, first);
      var u := Submit(t.(longURL := s.longURL), isValidURL, second);
      && |t.shortenedURLs| == |s.shortenedURLs| + 1
      && u.error == DuplicateURLError && u.shortenedURLs == t.shortenedURLs
  {
    var t := Submit(s, isValidURL, first);
    var n := |s.shortenedURLs|;
    assert t.shortenedURLs[n].original == s.longURL;
  }

  /**
   * The component: the input field's text, the list of entries and the error
   * text, each updated through its setter.
   */
  class UrlShortener {
    var longURL: string
    var shortenedURLs: seq<Entry>
    var error: string

    function Snapshot(): State
      reads this
    {
      State(longURL, shortenedURLs, error)
    }

    /** The three `useState` hooks' initial values. */
    constructor ()
      ensures Snapshot() == State("", [], "")
    {
      longURL := "";
      shortenedURLs := [];
      error := "";
    }

    /** The input's `onChange` handler: `setLongURL(e.target.value)`. */
    method SetLongURL(text: string)
      modifies this
      ensures Snapshot() == old(Snapshot()).(longURL := text)
    {
      longURL := text;
    }

    /**
     * `handleShortenURL`: clear the error, run the three checks in order and
     * stop at the first that fails, else append the new entry and clear the
     * input. The list keeps distinct originals if it had them.
     */
    method HandleShortenURL(isValidURL: string -> bool, timestamp: int)
      modifies this
      ensures Snapshot() == Submit(old(Snapshot()), isValidURL, timestamp)
      ensures DistinctOriginals(old(shortenedURLs)) ==> DistinctOriginals(shortenedURLs)
    {
      if DistinctOriginals(shortenedURLs) {
        SubmitPreservesDistinctOriginals(Snapshot(), isValidURL, timestamp);
      }
      error := "";
      if longURL == "" {
        error := EmptyURLError;
        return;
      }
      if !isValidURL(longURL) {
        error := InvalidURLError;
        return;
      }
      var existingURL := FindByOriginal(shortenedURLs, longURL);
      if existingURL.Some? {
        error := DuplicateURLError;
        return;
      }
      var shortURL := GenerateShortURL(longURL, timestamp);
      var newURLEntry := Entry(longURL, ShortURLPrefix + shortURL, shortURL);
      shortenedURLs := shortenedURLs + [newURLEntry];
      longURL := "";
    }
  }
}
