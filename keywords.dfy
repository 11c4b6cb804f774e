/**
 * `git_versions_from_keywords`: the version read from the keywords `git archive` expands in
 * the version file of an exported tree, the ref names ("refnames"), the full commit hash
 * ("full") and the commit date ("date").
 */
module VersionKeywords {
  import opened Wrappers
  import opened PyStr
  import opened VersionRender

  /** The exceptions the function raises: the method does not apply, or a keyword is missing. */
  datatype KeywordsError = NotThisMethod(message: string) | KeyError(key: string)

  /** The marker `git log --format=%d` puts before a tag name. */
  const TagMarker: string := "tag: "

  const Parens: set<char> := {'(', ')'}

  /** The ref names of a stripped `refnames`: parentheses stripped, split at commas, each piece stripped. */
  function Refs(refnames: string): seq<string> {
    var parts := Split(StripChars(refnames, Parens), ',');
    seq(|parts|, k requires 0 <= k < |parts| => Strip(parts[k]))
  }

  /** Each ref is a comma-free piece of the list, already stripped, and there is at least one. */
  lemma RefsStripped(refnames: string)
    ensures |Refs(refnames)| > 0
    ensures forall k :: 0 <= k < |Refs(refnames)| ==>
      ',' !in Refs(refnames)[k] && Strip(Refs(refnames)[k]) == Refs(refnames)[k]
  {
    var parts := Split(StripChars(refnames, Parens), ',');
    forall k | 0 <= k < |parts|
      ensures ',' !in Strip(parts[k]) && Strip(Strip(parts[k])) == Strip(parts[k])
    {
      StripCharsIdempotent(parts[k], Whitespace);
      StripKeepsOut(parts[k], ',');
    }
  }

  /** Stripping adds no character. */
  lemma StripKeepsOut(s: string, c: char)
    requires c !in s
    ensures c !in Strip(s)
  {
  }

  /** The names after the marker of the refs that carry it, in order. */
  function TagRefs(refs: seq<string>): (tags: seq<string>)
    ensures forall t :: t in tags <==> exists r :: r in refs && StartsWith(r, TagMarker) && t == r[|TagMarker|..]
  {
    if refs == [] then []
    else
      var rest := TagRefs(refs[1..]);
      assert forall r :: r in refs <==> r == refs[0] || r in refs[1..];
      (if StartsWith(refs[0], TagMarker) then [refs[0][|TagMarker|..]] else []) + rest
  }

  /** What the regular expression `\d` finds: a decimal digit somewhere in s. */
  predicate HasDigit(s: string) {
    exists i :: 0 <= i < |s| && IsDigit(s[i])
  }

  /** The refs with a digit in them, in order. */
  function DigitRefs(refs: seq<string>): (tags: seq<string>)
    ensures forall t :: t in tags <==> t in refs && HasDigit(t)
  {
    if refs == [] then []
    else
      var rest := DigitRefs(refs[1..]);
      assert forall r :: r in refs <==> r == refs[0] || r in refs[1..];
      (if HasDigit(refs[0]) then [refs[0]] else []) + rest
  }

  /** The candidate tags: the marked names, or when there are none the refs with a digit. */
  function Tags(refs: seq<string>): (tags: seq<string>)
    ensures (exists r :: r in refs && StartsWith(r, TagMarker)) ==>
      forall t :: t in tags <==> exists r :: r in refs && StartsWith(r, TagMarker) && t == r[|TagMarker|..]
    ensures (forall r :: r in refs ==> !StartsWith(r, TagMarker)) ==>
      forall t :: t in tags <==> t in refs && HasDigit(t)
  {
    var marked := TagRefs(refs);
    assert marked != [] ==> marked[0] in marked;
    assert forall r :: r in refs && StartsWith(r, TagMarker) ==> r[|TagMarker|..] in marked;
    if marked != [] then marked else DigitRefs(refs)
  }

  /** The keywords hold expanded ref names: the method applies and reads a tag list. */
  predicate Expanded(keywords: map<string, string>) {
    keywords != map[] && "refnames" in keywords && !StartsWith(Strip(keywords["refnames"]), "$Format")
  }

  function KeywordTags(keywords: map<string, string>): seq<string>
    requires "refnames" in keywords
  {
    Tags(Refs(Strip(keywords["refnames"])))
  }

  /** The commit date, normalised to ISO 8601 as the describe path normalises it. */
  function KeywordDate(keywords: map<string, string>): Option<string> {
    if "date" in keywords then Some(NormaliseDate(keywords["date"])) else None
  }

  /** t is the least of the names in tags that start with the prefix, in code-point order. */
  predicate LeastWithPrefix(t: string, tags: seq<string>, tagPrefix: string) {
    t in tags && StartsWith(t, tagPrefix) &&
    forall u :: u in tags && StartsWith(u, tagPrefix) ==> LexLessEq(t, u)
  }

  /** Position i holds the first name of the list that starts with the prefix. */
  predicate FirstAt(names: seq<string>, i: int, tagPrefix: string) {
    0 <= i < |names| && StartsWith(names[i], tagPrefix) && forall k :: 0 <= k < i ==> !StartsWith(names[k], tagPrefix)
  }

  /** The find-first loop: the first name of the list that starts with the prefix. */
  function FirstWithPrefix(names: seq<string>, tagPrefix: string): (r: Option<string>)
    ensures r.None? <==> forall t :: t in names ==> !StartsWith(t, tagPrefix)
    ensures r.Some? ==> exists i :: FirstAt(names, i, tagPrefix) && names[i] == r.value
  {
    if names == [] then None
    else if StartsWith(names[0], tagPrefix) then Some(names[0])
    else
      var r := FirstWithPrefix(names[1..], tagPrefix);
      assert forall t :: t in names <==> t == names[0] || t in names[1..];
      if r.Some? then
        var i :| FirstAt(names[1..], i, tagPrefix) && names[1..][i] == r.value;
        assert names[i + 1] == r.value;
        assert FirstAt(names, i + 1, tagPrefix) by {
          forall k | 0 < k < i + 1 ensures !StartsWith(names[k], tagPrefix) {
            assert names[k] == names[1..][k - 1];
          }
        }
        r
      else
        r
  }

  /** The loop over `sorted(tags)`: the least name, in code-point order, that starts with the prefix. */
  function PickTag(tags: seq<string>, tagPrefix: string): (picked: Option<string>)
    ensures picked.None? <==> forall t :: t in tags ==> !StartsWith(t, tagPrefix)
    ensures picked.Some? ==> LeastWithPrefix(picked.value, tags, tagPrefix)
  {
    var sorted := Sort(tags);
    SortMembers(tags);
    var picked := FirstWithPrefix(sorted, tagPrefix);
    if picked.Some? then
      FirstIsLeast(sorted, tagPrefix, picked.value);
      picked
    else
      picked
  }

  /** In a sorted list, the first name with the prefix is at most every name with it. */
  lemma FirstIsLeast(sorted: seq<string>, tagPrefix: string, first: string)
    requires Sorted(sorted)
    requires exists i :: FirstAt(sorted, i, tagPrefix) && sorted[i] == first
    ensures forall u :: u in sorted && StartsWith(u, tagPrefix) ==> LexLessEq(first, u)
  {
    var i :| FirstAt(sorted, i, tagPrefix) && sorted[i] == first;
    forall u | u in sorted && StartsWith(u, tagPrefix)
      ensures LexLessEq(first, u)
    {
      var j :| 0 <= j < |sorted| && sorted[j] == u;
      if j == i {
        LexReflexive(u);
      }
    }
  }

  /**
   * `git_versions_from_keywords`: no keywords, missing ref names and unexpanded keywords are
   * errors; otherwise the least candidate tag with the prefix gives the version, and without
   * one the version is "0+unknown" with an error. Either way the full hash must be present.
   */
  function GitVersionsFromKeywords(keywords: map<string, string>, tagPrefix: string): (r: Result<Versions, KeywordsError>)
    ensures keywords == map[] ==> r == Failure(NotThisMethod("no keywords at all, weird"))
    ensures keywords != map[] && "refnames" !in keywords ==> r == Failure(KeyError("refnames"))
    ensures keywords != map[] && "refnames" in keywords && StartsWith(Strip(keywords["refnames"]), "$Format") ==>
      r == Failure(NotThisMethod("unexpanded keywords, not a git-archive tarball"))
    ensures Expanded(keywords) && "full" !in keywords ==> r == Failure(KeyError("full"))
    ensures r.Success? <==> Expanded(keywords) && "full" in keywords
    ensures r.Success? ==> r.value.fullRevisionId == Some(Strip(keywords["full"])) && r.value.dirty == Some(false)
    ensures r.Success? ==>
      (r.value.error.None? <==> exists t :: t in KeywordTags(keywords) && StartsWith(t, tagPrefix))
    ensures r.Success? && r.value.error.None? ==>
      r.value.date == KeywordDate(keywords) &&
      exists t :: LeastWithPrefix(t, KeywordTags(keywords), tagPrefix) && r.value.version == t[|tagPrefix|..]
    ensures r.Success? && r.value.error.Some? ==>
      r.value.version == "0+unknown" && r.value.error == Some("no suitable tags") && r.value.date == None
  {
    if keywords == map[] then Failure(NotThisMethod("no keywords at all, weird"))
    else
      var date := KeywordDate(keywords);
      if "refnames" !in keywords then Failure(KeyError("refnames"))
      else
        var refnames := Strip(keywords["refnames"]);
        if StartsWith(refnames, "$Format") then Failure(NotThisMethod("unexpanded keywords, not a git-archive tarball"))
        else
          var picked := PickTag(Tags(Refs(refnames)), tagPrefix);
          if "full" !in keywords then Failure(KeyError("full"))
          else
            var full := Strip(keywords["full"]);
            match picked
            case Some(t) => Success(Versions(t[|tagPrefix|..], Some(full), Some(false), None, date))
            case None => Success(Versions("0+unknown", Some(full), Some(false), Some("no suitable tags"), None))
  }

  /**
   * The ref list `git log --format=%d` writes, pieces joined by commas inside parentheses,
   * reads back as its pieces, stripped.
   */
  lemma RefsOfJoined(pieces: seq<string>)
    requires |pieces| > 0 && forall k :: 0 <= k < |pieces| ==> ',' !in pieces[k]
    requires var j := Join(pieces, ','); j == [] || (j[0] !in Parens && j[|j| - 1] !in Parens)
    ensures Refs(Strip("(" + Join(pieces, ',') + ")")) == seq(|pieces|, k requires 0 <= k < |pieces| => Strip(pieces[k]))
  {
    var s := "(" + Join(pieces, ',') + ")";
    StripNoop(s);
    StripEnclosed('(', Join(pieces, ','), ')', Parens);
    SplitJoin(pieces, ',');
  }
}
