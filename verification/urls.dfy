/** The URL source (loadURLs): the lines of the URL list, minus blank lines
    and '#' comments, handed one at a time to a consumer that may stop the
    walk; a trailing read error is reported through an error variable. */
module Urls {
  import opened Errors
  import opened Text

  /** The test applied to each line: after trimming, a line that is empty
      or starts with '#' is skipped. */
  predicate IsSkipped(line: string) {
    var trimmed := TrimSpace(line);
    trimmed == [] || trimmed[0] == '#'
  }

  /** A line is skipped exactly when it is all white space or its first
      non-space character is '#'. */
  lemma {:induction false} SkippedIffBlankOrComment(line: string)
    ensures IsSkipped(line) <==>
      AllSpace(line) || (LeadingSpaces(line) < |line| && line[LeadingSpaces(line)] == '#')
  {
    TrimSpaceTrims(line);
  }

  /** The URLs the list holds: its lines, in order and untrimmed, without
      the skipped ones. */
  function UrlLines(lines: seq<string>): (urls: seq<string>)
    ensures |urls| <= |lines|
  {
    if lines == [] then []
    else if IsSkipped(lines[0]) then UrlLines(lines[1..])
    else [lines[0]] + UrlLines(lines[1..])
  }

  /** No URL is blank or a comment. */
  lemma {:induction false} UrlLinesSound(lines: seq<string>)
    ensures forall k :: 0 <= k < |UrlLines(lines)| ==> !IsSkipped(UrlLines(lines)[k])
  {
    if lines != [] {
      UrlLinesSound(lines[1..]);
    }
  }

  /** Filtering distributes over concatenation of line lists. */
  lemma {:induction false} UrlLinesAppend(a: seq<string>, b: seq<string>)
    ensures UrlLines(a + b) == UrlLines(a) + UrlLines(b)
  {
    if a == [] {
      assert a + b == b;
    } else {
      assert (a + b)[1..] == a[1..] + b;
      UrlLinesAppend(a[1..], b);
    }
  }

  /** One more line extends the URL list by that line, unless it is skipped. */
  lemma {:induction false} UrlLinesStep(lines: seq<string>, i: nat)
    requires i < |lines|
    ensures UrlLines(lines[..i + 1]) == UrlLines(lines[..i]) + if IsSkipped(lines[i]) then [] else [lines[i]]
  {
    assert lines[..i + 1] == lines[..i] + [lines[i]];
    UrlLinesAppend(lines[..i], [lines[i]]);
  }

  /** The URLs of a prefix of the list are a prefix of its URLs. */
  lemma {:induction false} UrlLinesPrefix(lines: seq<string>, i: nat)
    requires i <= |lines|
    ensures UrlLines(lines[..i]) <= UrlLines(lines)
  {
    assert lines[..i] + lines[i..] == lines;
    UrlLinesAppend(lines[..i], lines[i..]);
  }

  /** `sub` is obtained from `s` by deleting elements. */
  predicate IsSubsequence<T(==)>(sub: seq<T>, s: seq<T>)
    decreases |s|
  {
    sub == [] ||
    (s != [] &&
     ((sub[0] == s[0] && IsSubsequence(sub[1..], s[1..])) || IsSubsequence(sub, s[1..])))
  }

  /** The URLs keep the order of the list: they are a subsequence of it. */
  lemma {:induction false} UrlLinesSubsequence(lines: seq<string>)
    ensures IsSubsequence(UrlLines(lines), lines)
  {
    if lines != [] {
      UrlLinesSubsequence(lines[1..]);
      if !IsSkipped(lines[0]) {
        assert ([lines[0]] + UrlLines(lines[1..]))[1..] == UrlLines(lines[1..]);
      }
    }
  }

  /** No deduplication and nothing lost: a URL occurs as often as in the
      list, a skipped line never. */
  lemma {:induction false} UrlLinesCount(lines: seq<string>, x: string)
    ensures multiset(UrlLines(lines))[x] == if IsSkipped(x) then 0 else multiset(lines)[x]
  {
    if lines != [] {
      UrlLinesCount(lines[1..], x);
      assert lines == [lines[0]] + lines[1..];
    }
  }

  /** Every line that is not blank and not a comment is a URL. */
  lemma {:induction false} UrlLinesComplete(lines: seq<string>, i: nat)
    requires i < |lines| && !IsSkipped(lines[i])
    ensures lines[i] in UrlLines(lines)
  {
    UrlLinesCount(lines, lines[i]);
    assert lines[i] in multiset(lines);
  }

  /** A list without skipped lines is its own URL list; in particular,
      filtering twice is filtering once. */
  lemma {:induction false} UrlLinesKeepsUrls(lines: seq<string>)
    requires forall k :: 0 <= k < |lines| ==> !IsSkipped(lines[k])
    ensures UrlLines(lines) == lines
  {
    if lines != [] {
      UrlLinesKeepsUrls(lines[1..]);
    }
  }

  /** A list with a blank line and an indented comment between two URLs
      gives exactly the two URLs, in order. */
  lemma UrlListExample()
    ensures UrlLines(["https://a.example", "", "  # comment", "https://b.example"])
         == ["https://a.example", "https://b.example"]
  {
    var lines := ["https://a.example", "", "  # comment", "https://b.example"];
    assert !IsSkipped(lines[0]);
    assert IsSkipped(lines[1]);
    assert IsSkipped(lines[2]) by {
      assert LeadingSpaces(lines[2]) == 2;
      SkippedIffBlankOrComment(lines[2]);
    }
    assert !IsSkipped(lines[3]);
  }

  /** The `*error` variable the reader writes its error through. */
  class ErrorSlot {
    var err: Option<IoError>

    constructor ()
      ensures err == None
    {
      err := None;
    }
  }

  /** The URL list file: it cannot be opened, or it splits into lines and
      the scanner may end with an error. */
  datatype UrlFile =
    | Unopenable(openErr: IoError)
    | Opened(lines: seq<string>, scanErr: Option<IoError>)

  /** The consumer asked to stop at the last line it was given.
      `accept(k, u)` is what the k-th call of yield, with URL u, returns. */
  predicate Refused(yielded: seq<string>, accept: (nat, string) -> bool) {
    |yielded| > 0 && !accept(|yielded| - 1, yielded[|yielded| - 1])
  }

  /** The scanning loop of loadURLs: walks the lines in order and hands
      each URL to yield, stopping as soon as yield returns false. */
  method YieldUrls(lines: seq<string>, accept: (nat, string) -> bool)
    returns (yielded: seq<string>, stopped: bool)
    ensures yielded <= UrlLines(lines)
    ensures forall k :: 0 <= k < |yielded| - 1 ==> accept(k, yielded[k])
    ensures stopped == Refused(yielded, accept)
    ensures !stopped ==> yielded == UrlLines(lines)
  {
    yielded, stopped := [], false;
    for i := 0 to |lines|
      invariant yielded == UrlLines(lines[..i])
      invariant forall k :: 0 <= k < |yielded| ==> accept(k, yielded[k])
    {
      var line := lines[i];
      UrlLinesStep(lines, i);
      if !IsSkipped(line) {
        var more := accept(|yielded|, line);
        yielded := yielded + [line];
        if !more {
          UrlLinesPrefix(lines, i + 1);
          stopped := true;
          return;
        }
      }
    }
    assert lines[..|lines|] == lines;
  }

  /** loadURLs: yields the URLs of the file in order. When the consumer
      stops the walk, the error variable is left untouched; only when the
      lines run out is the scanner's error (nil included) stored. A file
      that cannot be opened yields nothing and stores the open error. */
  method LoadURLs(file: UrlFile, accept: (nat, string) -> bool, rerr: ErrorSlot)
    returns (yielded: seq<string>)
    modifies rerr
    ensures file.Unopenable? ==> yielded == [] && rerr.err == Some(file.openErr)
    ensures file.Opened? ==> yielded <= UrlLines(file.lines)
    ensures forall k :: 0 <= k < |yielded| - 1 ==> accept(k, yielded[k])
    ensures file.Opened? && !Refused(yielded, accept) ==>
      yielded == UrlLines(file.lines) && rerr.err == file.scanErr
    ensures file.Opened? && Refused(yielded, accept) ==> rerr.err == old(rerr.err)
  {
    match file
    case Unopenable(e) =>
      rerr.err := Some(e);
      yielded := [];
    case Opened(lines, scanErr) =>
      var stopped;
      yielded, stopped := YieldUrls(lines, accept);
      if !stopped {
        rerr.err := scanErr;
      }
  }
}
