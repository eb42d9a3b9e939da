/** Output-name derivation: the last segment of a URL's path, or a fixed
    default name when that segment is empty or the URL has no segments. */
module UrlFileName {
  import opened Common
  import Strings

  /** The name used when the URL gives none. */
  const DefaultName: string := "download"

  /** A parsed URL, reduced to its serialized path; URL parsing itself is
      outside the model, so only the path is kept. */
  datatype Url = Url(path: string)

  /** The URL's path segments as the url crate yields them: none when the
      path does not start with '/', otherwise the text after the leading
      '/' split at every '/', empty segments kept. */
  function PathSegments(url: Url): (segs: Option<seq<string>>)
    ensures segs.Some? <==> |url.path| > 0 && url.path[0] == '/'
    ensures segs.Some? ==> |segs.value| >= 1 && Strings.Join(segs.value, '/') == url.path[1..]
    ensures segs.Some? ==> forall i :: 0 <= i < |segs.value| ==> '/' !in segs.value[i]
  {
    if |url.path| > 0 && url.path[0] == '/' then
      Strings.JoinSplit(url.path[1..], '/');
      Strings.SplitPiecesFree(url.path[1..], '/');
      Some(Strings.Split(url.path[1..], '/'))
    else None
  }

  /** The file name a download of `url` is saved under: its last path
      segment when there is one and it is not empty, else `DefaultName`. */
  function FileNameFromUrl(url: Url): (name: string)
    ensures name != ""
    ensures '/' !in name
  {
    match PathSegments(url)
    case None => DefaultName
    case Some(segs) =>
      if segs[|segs| - 1] == "" then DefaultName else segs[|segs| - 1]
  }

  /** The file name, read off the path text: for a path starting with '/',
      it is the text after the last '/' when that text is not empty; a path
      ending in '/', or one not starting with '/', gives `DefaultName`. */
  lemma FileNameIsLastPathSegment(url: Url)
    ensures |url.path| == 0 || url.path[0] != '/' ==> FileNameFromUrl(url) == DefaultName
    ensures |url.path| > 0 && url.path[|url.path| - 1] == '/' ==> FileNameFromUrl(url) == DefaultName
    ensures forall k ::
              (&& 0 <= k < |url.path| - 1 && url.path[0] == '/' && url.path[k] == '/'
               && (forall i :: k < i < |url.path| ==> url.path[i] != '/'))
              ==> FileNameFromUrl(url) == url.path[k + 1..]
  {
    var path := url.path;
    if |path| > 0 && path[0] == '/' {
      if path[|path| - 1] == '/' {
        FileNameOfDirectoryPath(url);
      }
      forall k | && 0 <= k < |path| - 1 && path[k] == '/'
                 && (forall i :: k < i < |path| ==> path[i] != '/')
        ensures FileNameFromUrl(url) == path[k + 1..]
      {
        FileNameAfterLastSlash(url, k);
      }
    }
  }

  /** A path ending in '/' gives `DefaultName`. */
  lemma FileNameOfDirectoryPath(url: Url)
    requires |url.path| > 0 && url.path[0] == '/' && url.path[|url.path| - 1] == '/'
    ensures FileNameFromUrl(url) == DefaultName
  {
    var j, last := LastSlash(url);
    Strings.LastOccurrenceUnique(url.path, '/', |url.path| - 1, j);
  }

  /** The text after the last '/' of a path, when not empty, is the name. */
  lemma FileNameAfterLastSlash(url: Url, k: nat)
    requires |url.path| > 0 && url.path[0] == '/'
    requires k < |url.path| - 1 && url.path[k] == '/'
    requires forall i :: k < i < |url.path| ==> url.path[i] != '/'
    ensures FileNameFromUrl(url) == url.path[k + 1..]
  {
    var j, last := LastSlash(url);
    Strings.LastOccurrenceUnique(url.path, '/', k, j);
    assert |last| == |url.path| - k - 1 > 0;
  }

  /** For a path starting with '/', the position `j` of its last '/' and
      the last path segment `last`, which is the text after `j`. */
  lemma LastSlash(url: Url) returns (j: nat, last: string)
    requires |url.path| > 0 && url.path[0] == '/'
    ensures FileNameFromUrl(url) == if last == "" then DefaultName else last
    ensures j < |url.path| && url.path[j] == '/' && url.path[j + 1..] == last
    ensures forall i :: j < i < |url.path| ==> url.path[i] != '/'
  {
    var segs := Strings.Split(url.path[1..], '/');
    assert PathSegments(url) == Some(segs);
    last := segs[|segs| - 1];
    j := |url.path| - |last| - 1;
    Strings.SplitLastPiece(url.path[1..], '/');
    Strings.LastPieceAfterLeadingSeparator(url.path, '/', last);
  }

  /** The default name appears exactly when the URL offers no usable last
      segment. */
  lemma DefaultNameExactlyWhenNoLastSegment(url: Url)
    ensures FileNameFromUrl(url) == DefaultName <==>
      (PathSegments(url).None? || PathSegments(url).value[|PathSegments(url).value| - 1] in {"", DefaultName})
  {
  }
}
