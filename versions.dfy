/**
 * Versioneer's rendering of a version string from the "pieces" that `git describe` yields,
 * in its six styles, the style dispatcher, and the parse of `git describe` output that
 * produces the pieces (the part of that function that does not run git).
 */
module VersionRender {
  import opened Wrappers
  import opened PyStr

  /**
   * The pieces dictionary. A key the source leaves out is None (closest-tag, error, date)
   * or 0 (distance).
   */
  datatype Pieces = Pieces(
    closestTag: Option<string>,
    distance: nat,
    short: string,
    long: string,
    dirty: bool,
    error: Option<string>,
    date: Option<string>)

  /** The version dictionary that `render` and the keyword lookup return. */
  datatype Versions = Versions(
    version: string,
    fullRevisionId: Option<string>,
    dirty: Option<bool>,
    error: Option<string>,
    date: Option<string>)

  /** `if pieces["closest-tag"]`: a tag is present and, as Python truthiness has it, not empty. */
  predicate HasTag(p: Pieces) {
    p.closestTag.Some? && p.closestTag.value != ""
  }

  /** `if pieces["error"]`: an error is present and not empty. */
  predicate HasError(p: Pieces) {
    p.error.Some? && p.error.value != ""
  }

  /** The ".dirty", ".dev0" or "-dirty" marker when the tree is dirty, nothing otherwise. */
  function DirtyMark(p: Pieces, mark: string): string {
    if p.dirty then mark else ""
  }

  /**
   * `plus_or_dot`: the separator before the local version label. A tag that already has a
   * local part ("+" in it) gets ".", otherwise "+", so the rendering holds one "+" only.
   */
  function PlusOrDot(p: Pieces): (sep: string)
    requires p.closestTag.Some?
    ensures sep == "." <==> '+' in p.closestTag.value
    ensures sep == "+" <==> '+' !in p.closestTag.value
  {
    if '+' in p.closestTag.value then "." else "+"
  }

  /** `render_pep440`: TAG[+DISTANCE.gHEX[.dirty]], or 0+untagged.DISTANCE.gHEX[.dirty] without a tag. */
  function RenderPep440(p: Pieces): (rendered: string)
    ensures HasTag(p) ==> StartsWith(rendered, p.closestTag.value)
    ensures HasTag(p) && p.distance == 0 && !p.dirty ==> rendered == p.closestTag.value
    ensures !HasTag(p) ==> StartsWith(rendered, "0+untagged.")
    ensures p.dirty ==> EndsWith(rendered, ".dirty")
  {
    if HasTag(p) then
      var tag := p.closestTag.value;
      if p.distance != 0 || p.dirty then
        tag + PlusOrDot(p) + NatToString(p.distance) + ".g" + p.short + DirtyMark(p, ".dirty")
      else
        tag
    else
      "0+untagged." + NatToString(p.distance) + ".g" + p.short + DirtyMark(p, ".dirty")
  }

  /** `render_pep440_pre`: TAG[.post.devDISTANCE], or 0.post.devDISTANCE without a tag; never marks dirt. */
  function RenderPep440Pre(p: Pieces): (rendered: string)
    ensures HasTag(p) ==> StartsWith(rendered, p.closestTag.value)
    ensures HasTag(p) && p.distance == 0 ==> rendered == p.closestTag.value
    ensures !HasTag(p) ==> StartsWith(rendered, "0.post.dev")
  {
    if HasTag(p) then
      var tag := p.closestTag.value;
      if p.distance != 0 then tag + ".post.dev" + NatToString(p.distance) else tag
    else
      "0.post.dev" + NatToString(p.distance)
  }

  /** `render_pep440_post`: TAG[.postDISTANCE[.dev0]+gHEX], or 0.postDISTANCE[.dev0]+gHEX without a tag. */
  function RenderPep440Post(p: Pieces): (rendered: string)
    ensures HasTag(p) ==> StartsWith(rendered, p.closestTag.value)
    ensures HasTag(p) && p.distance == 0 && !p.dirty ==> rendered == p.closestTag.value
    ensures !HasTag(p) ==> StartsWith(rendered, "0.post")
    ensures (HasTag(p) && (p.distance != 0 || p.dirty)) || !HasTag(p) ==> EndsWith(rendered, "g" + p.short)
  {
    if HasTag(p) then
      var tag := p.closestTag.value;
      if p.distance != 0 || p.dirty then
        tag + ".post" + NatToString(p.distance) + DirtyMark(p, ".dev0") + PlusOrDot(p) + "g" + p.short
      else
        tag
    else
      "0.post" + NatToString(p.distance) + DirtyMark(p, ".dev0") + "+g" + p.short
  }

  /** `render_pep440_old`: TAG[.postDISTANCE[.dev0]], or 0.postDISTANCE[.dev0] without a tag. */
  function RenderPep440Old(p: Pieces): (rendered: string)
    ensures HasTag(p) ==> StartsWith(rendered, p.closestTag.value)
    ensures HasTag(p) && p.distance == 0 && !p.dirty ==> rendered == p.closestTag.value
    ensures !HasTag(p) ==> StartsWith(rendered, "0.post")
    ensures p.dirty ==> EndsWith(rendered, ".dev0")
  {
    if HasTag(p) then
      var tag := p.closestTag.value;
      if p.distance != 0 || p.dirty then
        tag + ".post" + NatToString(p.distance) + DirtyMark(p, ".dev0")
      else
        tag
    else
      "0.post" + NatToString(p.distance) + DirtyMark(p, ".dev0")
  }

  /** `render_git_describe`: TAG[-DISTANCE-gHEX][-dirty], or HEX[-dirty] without a tag. */
  function RenderGitDescribe(p: Pieces): (rendered: string)
    ensures HasTag(p) ==> StartsWith(rendered, p.closestTag.value)
    ensures !HasTag(p) ==> StartsWith(rendered, p.short)
    ensures p.dirty ==> EndsWith(rendered, "-dirty")
  {
    var base :=
      if HasTag(p) then
        var tag := p.closestTag.value;
        if p.distance != 0 then tag + "-" + NatToString(p.distance) + "-g" + p.short else tag
      else
        p.short;
    base + DirtyMark(p, "-dirty")
  }

  /**
   * `render_git_describe_long`: TAG-DISTANCE-gHEX[-dirty], or HEX[-dirty] without a tag. Unlike
   * the short form it names the distance and the hash even at distance 0.
   */
  function RenderGitDescribeLong(p: Pieces): (rendered: string)
    ensures HasTag(p) ==>
      StartsWith(rendered, p.closestTag.value + "-") && EndsWith(rendered, "-g" + p.short + DirtyMark(p, "-dirty"))
    ensures !HasTag(p) ==> rendered == RenderGitDescribe(p)
    ensures p.dirty ==> EndsWith(rendered, "-dirty")
  {
    var base :=
      if HasTag(p) then p.closestTag.value + "-" + NatToString(p.distance) + "-g" + p.short else p.short;
    base + DirtyMark(p, "-dirty")
  }

  /**
   * Without a tag, `render_pep440` gives "0+untagged.", the distance in decimal, ".g", the
   * short hash, and ".dirty" exactly when the tree is dirty: each field reads back.
   */
  lemma Pep440UntaggedReadBack(p: Pieces)
    requires !HasTag(p) && p.short != [] && AllHex(p.short)
    ensures var r := RenderPep440(p);
      var tail := r[11..];
      var n := DigitRun(tail);
      && r[..11] == "0+untagged."
      && DigitsValue(tail[..n]) == p.distance
      && n + 2 <= |tail| && tail[n..n + 2] == ".g"
      && (EndsWith(r, ".dirty") <==> p.dirty)
      && |DirtyMark(p, ".dirty")| <= |tail| - (n + 2)
      && tail[n + 2..|tail| - |DirtyMark(p, ".dirty")|] == p.short
  {
    var tail := NatToString(p.distance) + ".g" + p.short + DirtyMark(p, ".dirty");
    Pep440UntaggedShape(p);
    LocalFieldsReadBack(p.distance, p.short, DirtyMark(p, ".dirty"));
    DotDirtyReadBack("0+untagged." + NatToString(p.distance) + ".g", p.short, p);
  }

  /** Without a tag the rendering is "0+untagged." followed by the local fields. */
  lemma Pep440UntaggedShape(p: Pieces)
    requires !HasTag(p)
    ensures var r := RenderPep440(p);
      && r[..11] == "0+untagged."
      && r[11..] == NatToString(p.distance) + ".g" + p.short + DirtyMark(p, ".dirty")
  {
    var tail := NatToString(p.distance) + ".g" + p.short + DirtyMark(p, ".dirty");
    assert RenderPep440(p) == "0+untagged." + tail;
  }

  /** In DISTANCE ".g" HEX MARK the digit run is the distance, followed by ".g" and the hash. */
  lemma LocalFieldsReadBack(distance: nat, short: string, mark: string)
    ensures var tail := NatToString(distance) + ".g" + short + mark;
      var n := DigitRun(tail);
      && DigitsValue(tail[..n]) == distance
      && n + 2 <= |tail| && tail[n..n + 2] == ".g"
      && |mark| <= |tail| - (n + 2)
      && tail[n + 2..|tail| - |mark|] == short
  {
    var d := NatToString(distance);
    var rest := ".g" + short + mark;
    var tail := d + rest;
    assert tail == NatToString(distance) + ".g" + short + mark;
    DigitRunOf(d, rest);
    assert tail[..|d|] == d;
    NatToStringRoundTrip(distance);
    assert tail[|d|..] == rest;
    assert rest[2..|rest| - |mark|] == short;
  }

  /** A rendering ending in a hex hash, then ".dirty" exactly when dirty, ends in ".dirty" iff dirty. */
  lemma DotDirtyReadBack(prefix: string, short: string, p: Pieces)
    requires short != [] && IsHex(short[|short| - 1])
    ensures EndsWith(prefix + short + DirtyMark(p, ".dirty"), ".dirty") <==> p.dirty
  {
    var r := prefix + short + DirtyMark(p, ".dirty");
    if p.dirty {
      assert r[|r| - 6..] == ".dirty";
    } else {
      assert r[|r| - 1] == short[|short| - 1] != 'y';
    }
  }

  /** Without a tag, `render_git_describe` gives the short hash and "-dirty" exactly when dirty. */
  lemma GitDescribeUntaggedReadBack(p: Pieces)
    requires !HasTag(p) && p.short != [] && AllHex(p.short)
    ensures SplitDirty(RenderGitDescribe(p)) == (p.short, p.dirty)
  {
    assert RenderGitDescribe(p) == p.short + (if p.dirty then "-dirty" else "");
    SplitDirtyMark(p.short, p.dirty);
  }

  /** The short describe form is the long one except that it omits "-0-gHEX" at distance 0. */
  lemma GitDescribeShortAndLong(p: Pieces)
    ensures HasTag(p) && p.distance == 0 ==>
      RenderGitDescribe(p) == p.closestTag.value + DirtyMark(p, "-dirty") &&
      RenderGitDescribeLong(p) == p.closestTag.value + "-0-g" + p.short + DirtyMark(p, "-dirty")
    ensures !(HasTag(p) && p.distance == 0) ==> RenderGitDescribe(p) == RenderGitDescribeLong(p)
  {
    assert NatToString(0) == "0";
  }

  /** The style names `render` accepts; "" and "default" select "pep440". */
  const Styles: set<string> :=
    {"", "default", "pep440", "pep440-pre", "pep440-post", "pep440-old", "git-describe", "git-describe-long"}

  /**
   * `render`: an error in the pieces wins over everything, including an unknown style; then
   * an empty or "default" style means "pep440"; any other unknown style raises ValueError.
   */
  function Render(p: Pieces, style: string): (r: Result<Versions, string>)
    ensures HasError(p) ==> r == Success(Versions("unknown", Some(p.long), None, p.error, None))
    ensures r.Failure? <==> !HasError(p) && style !in Styles
    ensures r.Failure? ==> r.error == "unknown style '" + style + "'"
    ensures r.Success? && !HasError(p) ==>
      r.value.fullRevisionId == Some(p.long) && r.value.dirty == Some(p.dirty) &&
      r.value.error == None && r.value.date == p.date
  {
    if HasError(p) then
      Success(Versions("unknown", Some(p.long), None, p.error, None))
    else
      var s := if style == "" || style == "default" then "pep440" else style;
      var rendered :=
        if s == "pep440" then Some(RenderPep440(p))
        else if s == "pep440-pre" then Some(RenderPep440Pre(p))
        else if s == "pep440-post" then Some(RenderPep440Post(p))
        else if s == "pep440-old" then Some(RenderPep440Old(p))
        else if s == "git-describe" then Some(RenderGitDescribe(p))
        else if s == "git-describe-long" then Some(RenderGitDescribeLong(p))
        else None;
      match rendered
      case None => Failure("unknown style '" + style + "'")
      case Some(v) => Success(Versions(v, Some(p.long), Some(p.dirty), None, p.date))
  }

  /** Without an error, each style renders with its own function, and "" and "default" as "pep440". */
  lemma RenderStyles(p: Pieces)
    requires !HasError(p)
    ensures Render(p, "").Success? && Render(p, "").value.version == RenderPep440(p)
    ensures Render(p, "default") == Render(p, "pep440") == Render(p, "")
    ensures Render(p, "pep440-pre").Success? && Render(p, "pep440-pre").value.version == RenderPep440Pre(p)
    ensures Render(p, "pep440-post").Success? && Render(p, "pep440-post").value.version == RenderPep440Post(p)
    ensures Render(p, "pep440-old").Success? && Render(p, "pep440-old").value.version == RenderPep440Old(p)
    ensures Render(p, "git-describe").Success? && Render(p, "git-describe").value.version == RenderGitDescribe(p)
    ensures Render(p, "git-describe-long").Success? &&
      Render(p, "git-describe-long").value.version == RenderGitDescribeLong(p)
  {
  }

  lemma NoPlusInNumber(n: nat)
    ensures CountChar(NatToString(n), '+') == 0
  {
    var s := NatToString(n);
    assert forall i :: 0 <= i < |s| ==> IsDigit(s[i]);
  }

  lemma CountChar4(a: string, b: string, c: string, e: string, ch: char)
    ensures CountChar(a + b + c + e, ch) == CountChar(a, ch) + CountChar(b, ch) + CountChar(c, ch) + CountChar(e, ch)
  {
    CountCharAppend(a, b, ch);
    CountCharAppend(a + b, c, ch);
    CountCharAppend(a + b + c, e, ch);
  }

  lemma CountChar5(a: string, b: string, c: string, e: string, f: string, ch: char)
    ensures CountChar(a + b + c + e + f, ch) ==
      CountChar(a, ch) + CountChar(b, ch) + CountChar(c, ch) + CountChar(e, ch) + CountChar(f, ch)
  {
    CountChar4(a, b, c, e, ch);
    CountCharAppend(a + b + c + e, f, ch);
  }

  lemma CountChar7(a: string, b: string, c: string, e: string, f: string, g: string, h: string, ch: char)
    ensures CountChar(a + b + c + e + f + g + h, ch) ==
      CountChar(a, ch) + CountChar(b, ch) + CountChar(c, ch) + CountChar(e, ch) +
      CountChar(f, ch) + CountChar(g, ch) + CountChar(h, ch)
  {
    CountChar4(a, b, c, e, ch);
    CountCharAppend(a + b + c + e, f, ch);
    CountCharAppend(a + b + c + e + f, g, ch);
    CountCharAppend(a + b + c + e + f + g, h, ch);
  }

  /** The fixed pieces the renderings add hold no "+". */
  lemma FixedPiecesNoPlus()
    ensures '+' !in ".dirty" && '+' !in ".dev0" && '+' !in ".g" && '+' !in "g"
    ensures '+' !in ".post" && '+' !in "0.post" && '+' !in ".post.dev" && '+' !in "0.post.dev"
  {
  }

  lemma DirtyMarkNoPlus(p: Pieces, mark: string)
    requires '+' !in mark
    ensures '+' !in DirtyMark(p, mark)
  {
  }

  /** The "+" a separator of `plus_or_dot` contributes. */
  lemma PlusOrDotCount(p: Pieces)
    requires p.closestTag.Some?
    ensures CountChar(PlusOrDot(p), '+') == (if '+' in p.closestTag.value then 0 else 1)
  {
  }

  /** A local label with a tag: the tag's "+" count, or one "+" when the tag has none. */
  lemma Pep440TaggedPlus(p: Pieces)
    requires HasTag(p) && (p.distance != 0 || p.dirty) && '+' !in p.short
    ensures CountChar(RenderPep440(p), '+') ==
      (if '+' in p.closestTag.value then CountChar(p.closestTag.value, '+') else 1)
  {
    var tag, sep, d, m := p.closestTag.value, PlusOrDot(p), NatToString(p.distance), DirtyMark(p, ".dirty");
    assert RenderPep440(p) == tag + sep + d + ".g" + p.short + m + "";
    CountChar7(tag, sep, d, ".g", p.short, m, "", '+');
    PlusOrDotCount(p);
    NoPlusInNumber(p.distance);
    FixedPiecesNoPlus();
    DirtyMarkNoPlus(p, ".dirty");
  }

  /** Without a tag the "+" is the one of "0+untagged.". */
  lemma UntaggedLabelPlus(d: string, short: string, m: string)
    requires '+' !in d && '+' !in short && '+' !in m
    ensures CountChar("0+untagged." + d + ".g" + short + m, '+') == 1
  {
    FixedPiecesNoPlus();
    UntaggedPrefixPlus();
    CountChar5("0+untagged.", d, ".g", short, m, '+');
  }

  lemma UntaggedPrefixPlus()
    ensures CountChar("0+untagged.", '+') == 1
  {
    var u := "0+untagged.";
    assert u[0] != '+' && u[1] == '+';
    assert u[1..][1..] == u[2..];
    assert '+' !in u[2..];
  }

  lemma Pep440UntaggedPlus(p: Pieces)
    requires !HasTag(p) && '+' !in p.short
    ensures CountChar(RenderPep440(p), '+') == 1
  {
    NoPlusInNumber(p.distance);
    UntaggedLabelPlus(NatToString(p.distance), p.short, DirtyMark(p, ".dirty"));
  }

  /**
   * PEP 440 allows one "+" (the start of the local version label). `render_pep440` adds one
   * exactly when it adds a local label and the tag has none, so a tag with at most one "+"
   * yields a rendering with at most one.
   */
  lemma Pep440OnePlus(p: Pieces)
    requires '+' !in p.short
    ensures HasTag(p) && (p.distance != 0 || p.dirty) ==>
      CountChar(RenderPep440(p), '+') == (if '+' in p.closestTag.value then CountChar(p.closestTag.value, '+') else 1)
    ensures !HasTag(p) ==> CountChar(RenderPep440(p), '+') == 1
    ensures HasTag(p) && CountChar(p.closestTag.value, '+') <= 1 ==> CountChar(RenderPep440(p), '+') <= 1
  {
    if HasTag(p) && (p.distance != 0 || p.dirty) {
      Pep440TaggedPlus(p);
    }
    if !HasTag(p) {
      Pep440UntaggedPlus(p);
    }
  }

  /** With a tag, `render_pep440_post` counts like `render_pep440`. */
  lemma Pep440PostTaggedPlus(p: Pieces)
    requires HasTag(p) && (p.distance != 0 || p.dirty) && '+' !in p.short
    ensures CountChar(RenderPep440Post(p), '+') ==
      (if '+' in p.closestTag.value then CountChar(p.closestTag.value, '+') else 1)
  {
    var tag, sep, d, m := p.closestTag.value, PlusOrDot(p), NatToString(p.distance), DirtyMark(p, ".dev0");
    assert RenderPep440Post(p) == tag + ".post" + d + m + sep + "g" + p.short;
    CountChar7(tag, ".post", d, m, sep, "g", p.short, '+');
    PlusOrDotCount(p);
    NoPlusInNumber(p.distance);
    FixedPiecesNoPlus();
    DirtyMarkNoPlus(p, ".dev0");
  }

  lemma Pep440PostUntaggedPlus(p: Pieces)
    requires !HasTag(p) && '+' !in p.short
    ensures CountChar(RenderPep440Post(p), '+') == 1
  {
    var d, m := NatToString(p.distance), DirtyMark(p, ".dev0");
    CountChar5("0.post", d, m, "+g", p.short, '+');
    assert CountChar("+g", '+') == 1;
    NoPlusInNumber(p.distance);
    FixedPiecesNoPlus();
    DirtyMarkNoPlus(p, ".dev0");
  }

  /** The same holds for `render_pep440_post`, whose local label is "gHEX". */
  lemma Pep440PostOnePlus(p: Pieces)
    requires '+' !in p.short
    ensures HasTag(p) && (p.distance != 0 || p.dirty) ==>
      CountChar(RenderPep440Post(p), '+') == (if '+' in p.closestTag.value then CountChar(p.closestTag.value, '+') else 1)
    ensures !HasTag(p) ==> CountChar(RenderPep440Post(p), '+') == 1
    ensures HasTag(p) && CountChar(p.closestTag.value, '+') <= 1 ==> CountChar(RenderPep440Post(p), '+') <= 1
  {
    if HasTag(p) && (p.distance != 0 || p.dirty) {
      Pep440PostTaggedPlus(p);
    }
    if !HasTag(p) {
      Pep440PostUntaggedPlus(p);
    }
  }

  /** Text without "+" after a tag adds no "+". */
  lemma TagThenNoPlus(tag: string, a: string, b: string, c: string)
    requires '+' !in a && '+' !in b && '+' !in c
    ensures CountChar(tag + a + b + c, '+') == CountChar(tag, '+')
    ensures CountChar(a + b + c, '+') == 0
  {
    CountChar4(tag, a, b, c, '+');
    CountCharAppend(a, b, '+');
    CountCharAppend(a + b, c, '+');
  }

  /** `render_pep440_pre` adds no "+": its additions are ".post.dev" and digits. */
  lemma Pep440PreNoPlus(p: Pieces)
    ensures CountChar(RenderPep440Pre(p), '+') == (if HasTag(p) then CountChar(p.closestTag.value, '+') else 0)
  {
    var d := NatToString(p.distance);
    NoPlusInNumber(p.distance);
    FixedPiecesNoPlus();
    if HasTag(p) && p.distance != 0 {
      TagThenNoPlus(p.closestTag.value, ".post.dev", d, "");
      assert RenderPep440Pre(p) == p.closestTag.value + ".post.dev" + d + "";
    } else if !HasTag(p) {
      TagThenNoPlus("", "0.post.dev", d, "");
      assert RenderPep440Pre(p) == "0.post.dev" + d + "";
    }
  }

  /** `render_pep440_old` adds no "+": its additions are ".post", digits and ".dev0". */
  lemma Pep440OldNoPlus(p: Pieces)
    ensures CountChar(RenderPep440Old(p), '+') == (if HasTag(p) then CountChar(p.closestTag.value, '+') else 0)
  {
    var d, m := NatToString(p.distance), DirtyMark(p, ".dev0");
    NoPlusInNumber(p.distance);
    FixedPiecesNoPlus();
    DirtyMarkNoPlus(p, ".dev0");
    if HasTag(p) && (p.distance != 0 || p.dirty) {
      TagThenNoPlus(p.closestTag.value, ".post", d, m);
    } else if !HasTag(p) {
      TagThenNoPlus("", "0.post", d, m);
    }
  }

  /** `date.strip().replace(" ", "T", 1).replace(" ", "", 1)`: ISO-8601 from git's "%ci" date. */
  function NormaliseDate(date: string): (normalised: string)
    ensures ' ' !in Strip(date) ==> normalised == Strip(date)
  {
    ReplaceFirst(ReplaceFirst(Strip(date), ' ', "T"), ' ', "")
  }

  /**
   * git's "%ci" committer date, DAY TIME ZONE separated by single spaces, becomes the
   * ISO-8601 stamp DAYTTIMEZONE.
   */
  lemma NormaliseIsoDate(day: string, time: string, zone: string)
    requires day != [] && day[0] !in Whitespace && ' ' !in day
    requires zone != [] && zone[|zone| - 1] !in Whitespace
    requires ' ' !in time
    ensures NormaliseDate(day + " " + time + " " + zone) == day + "T" + time + zone
  {
    var s := day + " " + time + " " + zone;
    assert s[0] == day[0] && s[|s| - 1] == zone[|zone| - 1];
    StripNoop(s);
    ReplaceFirstTwice(day, time, zone, ' ', "T", "");
    AppendEmpty(day + "T" + time, zone);
  }

  lemma AppendEmpty(a: string, b: string)
    ensures a + "" + b == a + b
  {
  }

  /** The date git prints for a commit, for instance, in the form the version dictionary carries. */
  lemma NormaliseGitDate()
    ensures NormaliseDate("2020-11-07 02:42:45 +0100") == "2020-11-07T02:42:45+0100"
  {
    assert "2020-11-07 02:42:45 +0100" == "2020-11-07" + " " + "02:42:45" + " " + "+0100";
    assert "2020-11-07T02:42:45+0100" == "2020-11-07" + "T" + "02:42:45" + "+0100";
    NormaliseIsoDate("2020-11-07", "02:42:45", "+0100");
  }

  predicate IsHex(c: char) {
    IsDigit(c) || 'a' <= c <= 'f'
  }

  predicate AllHex(s: string) {
    forall i :: 0 <= i < |s| ==> IsHex(s[i])
  }

  /** Length of the run of decimal digits at the start of s. */
  function DigitRun(s: string): (n: nat)
    ensures n <= |s| && AllDigits(s[..n]) && (n == |s| || !IsDigit(s[n]))
  {
    if s != [] && IsDigit(s[0]) then
      var n := 1 + DigitRun(s[1..]);
      assert s[..n] == [s[0]] + s[1..][..n - 1];
      n
    else 0
  }

  /** The tail `-(\d+)-g([0-9a-f]+)$` of the describe pattern, matched against the whole of t. */
  function MatchTail(t: string): (r: Option<(string, string)>)
    ensures r.Some? ==> r.value.0 != [] && AllDigits(r.value.0) && r.value.1 != [] && AllHex(r.value.1)
  {
    if t == [] || t[0] != '-' then None
    else
      var rest := t[1..];
      var n := DigitRun(rest);
      var after := rest[n..];
      if n > 0 && |after| > 2 && after[..2] == "-g" && AllHex(after[2..]) then Some((rest[..n], after[2..]))
      else None
  }

  /** The greedy `(.+)` tries the longest head first, so the last split point at or before i wins. */
  function MatchFrom(s: string, i: int): (r: Option<(string, string, string)>)
    requires i < |s|
    ensures r.Some? ==> AllDigits(r.value.1)
    decreases i
  {
    if i < 1 then None
    else
      match MatchTail(s[i..])
      case Some(m) => if '\n' !in s[..i] then Some((s[..i], m.0, m.1)) else MatchFrom(s, i - 1)
      case None => MatchFrom(s, i - 1)
  }

  /** `re.search(r"^(.+)-(\d+)-g([0-9a-f]+)$", s)`: the tag, the distance digits and the hash. */
  function MatchDescribe(s: string): (r: Option<(string, string, string)>)
    ensures r.Some? ==> AllDigits(r.value.1)
  {
    MatchFrom(s, |s| - 1)
  }

  /** What the describe output says about the closest tag. */
  datatype Described = NoTag | Tagged(tag: string, distance: nat, hex: string)

  /** The "-dirty" suffix, if any, taken off the describe output. */
  function SplitDirty(describe: string): (string, bool) {
    if EndsWith(describe, "-dirty") then (describe[..|describe| - 6], true) else (describe, false)
  }

  /**
   * The describe output without its "-dirty" suffix: no "-" means no tag at all; otherwise
   * TAG-NUM-gHEX, whose tag must carry the prefix. The error messages quote the whole output
   * and the tag.
   */
  function ParseDescribe(gitDescribe: string, tagPrefix: string, describe: string): Result<Described, string> {
    if '-' in gitDescribe then
      match MatchDescribe(gitDescribe)
      case None => Failure("unable to parse git-describe output: '" + describe + "'")
      case Some(m) =>
        if !StartsWith(m.0, tagPrefix) then Failure("tag '" + m.0 + "' doesn't start with prefix '" + tagPrefix + "'")
        else Success(Tagged(m.0[|tagPrefix|..], DigitsValue(m.1), m.2))
    else
      Success(NoTag)
  }

  /**
   * The pure part of `git_pieces_from_vcs`: the pieces for the output of
   * `git describe --tags --dirty --always --long`, of `git rev-parse HEAD`, of
   * `git rev-list HEAD --count` (already read as a number) and of `git show -s --format=%ci`.
   */
  function PiecesFromDescribe(describeOut: string, tagPrefix: string, fullOut: string, commitCount: nat, dateOut: string): Pieces {
    var describe := Strip(describeOut);
    var full := Strip(fullOut);
    var short := if |full| <= 7 then full else full[..7];
    var (gitDescribe, dirty) := SplitDirty(describe);
    match ParseDescribe(gitDescribe, tagPrefix, describe)
    case Failure(e) => Pieces(None, 0, short, full, dirty, Some(e), None)
    case Success(NoTag) => Pieces(None, commitCount, short, full, dirty, None, Some(NormaliseDate(dateOut)))
    case Success(Tagged(tag, distance, hex)) => Pieces(Some(tag), distance, hex, full, dirty, None, Some(NormaliseDate(dateOut)))
  }

  /**
   * What every parse records: the stripped full hash, the dirty flag read off the stripped
   * output, no tag, distance or date on an error, the normalised date otherwise, and for output
   * without "-" no tag, the commit count and the first seven hex digits of the full hash.
   */
  lemma PiecesFromDescribeFields(describeOut: string, tagPrefix: string, fullOut: string, commitCount: nat, dateOut: string)
    ensures var pieces := PiecesFromDescribe(describeOut, tagPrefix, fullOut, commitCount, dateOut);
      && pieces.long == Strip(fullOut)
      && (pieces.dirty <==> EndsWith(Strip(describeOut), "-dirty"))
      && (pieces.error.Some? ==> pieces.closestTag == None && pieces.distance == 0 && pieces.date == None)
      && (pieces.error.None? ==> pieces.date == Some(NormaliseDate(dateOut)))
      && ('-' !in SplitDirty(Strip(describeOut)).0 ==>
            pieces.error == None && pieces.closestTag == None && pieces.distance == commitCount &&
            pieces.short == Strip(fullOut)[..if |Strip(fullOut)| <= 7 then |Strip(fullOut)| else 7])
  {
    PiecesCommonFields(describeOut, tagPrefix, fullOut, commitCount, dateOut);
    if '-' !in SplitDirty(Strip(describeOut)).0 {
      PiecesUntaggedFields(describeOut, tagPrefix, fullOut, commitCount, dateOut);
    }
  }

  /** The fields every branch of the parse sets alike. */
  lemma PiecesCommonFields(describeOut: string, tagPrefix: string, fullOut: string, commitCount: nat, dateOut: string)
    ensures var pieces := PiecesFromDescribe(describeOut, tagPrefix, fullOut, commitCount, dateOut);
      && pieces.long == Strip(fullOut)
      && (pieces.dirty <==> EndsWith(Strip(describeOut), "-dirty"))
      && (pieces.error.Some? ==> pieces.closestTag == None && pieces.distance == 0 && pieces.date == None)
      && (pieces.error.None? ==> pieces.date == Some(NormaliseDate(dateOut)))
  {
    var describe := Strip(describeOut);
    var split := SplitDirty(describe);
    assert split.1 <==> EndsWith(describe, "-dirty");
    match ParseDescribe(split.0, tagPrefix, describe)
    case Failure(e) =>
    case Success(NoTag) =>
    case Success(Tagged(tag, distance, hex)) =>
  }

  /** Output without "-" takes the no-tag branch. */
  lemma PiecesUntaggedFields(describeOut: string, tagPrefix: string, fullOut: string, commitCount: nat, dateOut: string)
    requires '-' !in SplitDirty(Strip(describeOut)).0
    ensures var pieces := PiecesFromDescribe(describeOut, tagPrefix, fullOut, commitCount, dateOut);
      pieces.error == None && pieces.closestTag == None && pieces.distance == commitCount &&
      pieces.short == Strip(fullOut)[..if |Strip(fullOut)| <= 7 then |Strip(fullOut)| else 7]
  {
    var describe := Strip(describeOut);
    assert ParseDescribe(SplitDirty(describe).0, tagPrefix, describe) == Success(NoTag);
  }

  lemma {:induction false} DigitRunOf(digits: string, rest: string)
    requires AllDigits(digits)
    requires rest == [] || !IsDigit(rest[0])
    ensures DigitRun(digits + rest) == |digits|
    decreases |digits|
  {
    if digits == [] {
      assert digits + rest == rest;
    } else {
      assert (digits + rest)[1..] == digits[1..] + rest;
      DigitRunOf(digits[1..], rest);
    }
  }

  /** The tail pattern matches "-DIGITS-gHEX" and reads back the digits and the hash. */
  lemma {:induction false} MatchTailLong(digits: string, hex: string)
    requires digits != [] && AllDigits(digits)
    requires hex != [] && AllHex(hex)
    ensures MatchTail("-" + digits + "-g" + hex) == Some((digits, hex))
  {
    var t := "-" + digits + "-g" + hex;
    assert t[1..] == digits + ("-g" + hex);
    DigitRunOf(digits, "-g" + hex);
    assert (digits + ("-g" + hex))[|digits|..] == "-g" + hex;
    assert ("-g" + hex)[..2] == "-g" && ("-g" + hex)[2..] == hex;
  }

  /** Inside "-DIGITS-gHEX" no later position starts a match of the tail pattern. */
  lemma {:induction false} MatchTailOnlyAtStart(digits: string, hex: string, k: nat)
    requires AllDigits(digits) && AllHex(hex)
    requires 0 < k < |"-" + digits + "-g" + hex|
    ensures MatchTail(("-" + digits + "-g" + hex)[k..]).None?
  {
    var t := "-" + digits + "-g" + hex;
    var dash := 1 + |digits|;
    if k < dash {
      assert t[k] == digits[k - 1];
    } else if k == dash {
      assert t[k..] == "-g" + hex;
      assert t[k..][1..] == "g" + hex;
      DigitRunOf([], "g" + hex);
    } else if k == dash + 1 {
      assert t[k] == 'g';
    } else {
      assert t[k] == hex[k - dash - 2];
    }
  }

  /** Searching back from position j of s = TAG-DIGITS-gHEX finds nothing before the tag's end. */
  lemma {:induction false} MatchFromLong(s: string, tag: string, t: string, digits: string, hex: string, j: int)
    requires AllDigits(digits) && AllHex(hex)
    requires t == "-" + digits + "-g" + hex && s == tag + t
    requires |tag| <= j < |s|
    ensures MatchFrom(s, j) == MatchFrom(s, |tag|)
    decreases j
  {
    if j > |tag| {
      var k := j - |tag|;
      assert s[j..] == t[k..];
      MatchTailOnlyAtStart(digits, hex, k);
      assert MatchTail(s[j..]).None?;
      assert MatchFrom(s, j) == MatchFrom(s, j - 1);
      MatchFromLong(s, tag, t, digits, hex, j - 1);
    }
  }

  /** A split point whose tail matches and whose head has no newline is taken. */
  lemma MatchFromHit(s: string, i: int, m: (string, string))
    requires 1 <= i < |s| && MatchTail(s[i..]) == Some(m) && '\n' !in s[..i]
    ensures MatchFrom(s, i) == Some((s[..i], m.0, m.1))
  {
  }

  /** The pattern splits TAG-DIGITS-gHEX at the real split point, whatever the tag holds. */
  lemma {:induction false} MatchDescribeLong(tag: string, digits: string, hex: string)
    requires tag != [] && '\n' !in tag
    requires digits != [] && AllDigits(digits)
    requires hex != [] && AllHex(hex)
    ensures MatchDescribe(tag + ("-" + digits + "-g" + hex)) == Some((tag, digits, hex))
  {
    var t := "-" + digits + "-g" + hex;
    var s := tag + t;
    assert s[|tag|..] == t && s[..|tag|] == tag;
    MatchTailLong(digits, hex);
    MatchFromHit(s, |tag|, (digits, hex));
    MatchFromLong(s, tag, t, digits, hex, |s| - 1);
  }

  /** The "-dirty" suffix is recognised exactly when present, since a hash ends in a hex digit. */
  lemma SplitDirtyMark(base: string, dirty: bool)
    requires base != [] && IsHex(base[|base| - 1])
    ensures SplitDirty(base + (if dirty then "-dirty" else "")) == (base, dirty)
  {
    var out := base + (if dirty then "-dirty" else "");
    if dirty {
      assert out[|out| - 6..] == "-dirty";
      assert out[..|out| - 6] == base;
    } else {
      assert out == base;
      assert out[|out| - 1] != 'y' by {
        assert IsHex(base[|base| - 1]);
      }
      if |out| >= 6 {
        assert out[|out| - 6..][5] != "-dirty"[5];
      }
    }
  }

  /** Describe output starts and ends with no whitespace: a tag or hash first, a hash or "-dirty" last. */
  lemma StripDescribe(base: string, dirty: bool)
    requires base != [] && IsHex(base[|base| - 1]) && base[0] !in Whitespace
    ensures Strip(base + (if dirty then "-dirty" else "")) == base + (if dirty then "-dirty" else "")
  {
    var out := base + (if dirty then "-dirty" else "");
    assert out[0] == base[0];
    assert out[|out| - 1] == if dirty then 'y' else base[|base| - 1];
    StripNoop(out);
  }

  /** PREFIXTAG-DISTANCE-gHEX reads back as the tag without its prefix, the distance and the hash. */
  lemma {:induction false} ParseDescribeTagged(tagPrefix: string, tag: string, distance: nat, hex: string, describe: string)
    requires tag != [] && '\n' !in tagPrefix + tag
    requires hex != [] && AllHex(hex)
    ensures ParseDescribe((tagPrefix + tag) + ("-" + NatToString(distance) + "-g" + hex), tagPrefix, describe)
      == Success(Tagged(tag, distance, hex))
  {
    var full := tagPrefix + tag;
    var d := NatToString(distance);
    var base := full + ("-" + d + "-g" + hex);
    assert base[|full|] == '-';
    MatchDescribeLong(full, d, hex);
    assert full[..|tagPrefix|] == tagPrefix && full[|tagPrefix|..] == tag;
    NatToStringRoundTrip(distance);
  }

  /** A bare hash has no "-": there is no tag. */
  lemma ParseDescribeUntagged(hex: string, tagPrefix: string, describe: string)
    requires AllHex(hex)
    ensures ParseDescribe(hex, tagPrefix, describe) == Success(NoTag)
  {
    forall k | 0 <= k < |hex|
      ensures hex[k] != '-'
    {
      assert IsHex(hex[k]);
    }
  }

  /**
   * The pieces q carry what the describe output said: the dirty flag, no error, and either no
   * tag with the commit count as distance, or the tag, its distance and the hash it names.
   */
  predicate ParsedAs(q: Pieces, described: Described, dirty: bool, commitCount: nat) {
    q.dirty == dirty && q.error == None &&
    (described.NoTag? ==> q.closestTag == None && q.distance == commitCount) &&
    (described.Tagged? ==>
      q.closestTag == Some(described.tag) && q.distance == described.distance && q.short == described.hex)
  }

  /** The pieces of describe output that needs no stripping, once its parts are known. */
  lemma PiecesFromParts(out: string, gitDescribe: string, dirty: bool, tagPrefix: string, described: Described,
                        fullOut: string, commitCount: nat, dateOut: string)
    requires Strip(out) == out && SplitDirty(out) == (gitDescribe, dirty)
    requires ParseDescribe(gitDescribe, tagPrefix, out) == Success(described)
    ensures ParsedAs(PiecesFromDescribe(out, tagPrefix, fullOut, commitCount, dateOut), described, dirty, commitCount)
  {
  }

  /** The three stages of the parse on PREFIXTAG-DISTANCE-gHEX[-dirty]. */
  lemma TaggedParts(out: string, base: string, tagPrefix: string, tag: string, distance: nat, hex: string, dirty: bool)
    requires tag != [] && '\n' !in tagPrefix + tag && (tagPrefix + tag)[0] !in Whitespace
    requires hex != [] && AllHex(hex)
    requires base == (tagPrefix + tag) + ("-" + NatToString(distance) + "-g" + hex)
    requires out == base + (if dirty then "-dirty" else "")
    ensures Strip(out) == out && SplitDirty(out) == (base, dirty)
    ensures ParseDescribe(base, tagPrefix, out) == Success(Tagged(tag, distance, hex))
  {
    assert base[0] == (tagPrefix + tag)[0] && base[|base| - 1] == hex[|hex| - 1];
    StripDescribe(base, dirty);
    SplitDirtyMark(base, dirty);
    ParseDescribeTagged(tagPrefix, tag, distance, hex, out);
  }

  /** Parsing PREFIXTAG-DISTANCE-gHEX[-dirty] yields the tag, the distance, the hash and the flag. */
  lemma ParseTagged(out: string, base: string, tagPrefix: string, tag: string, distance: nat, hex: string, dirty: bool,
                    fullOut: string, commitCount: nat, dateOut: string)
    requires tag != [] && '\n' !in tagPrefix + tag && (tagPrefix + tag)[0] !in Whitespace
    requires hex != [] && AllHex(hex)
    requires base == (tagPrefix + tag) + ("-" + NatToString(distance) + "-g" + hex)
    requires out == base + (if dirty then "-dirty" else "")
    ensures ParsedAs(PiecesFromDescribe(out, tagPrefix, fullOut, commitCount, dateOut), Tagged(tag, distance, hex), dirty, commitCount)
  {
    TaggedParts(out, base, tagPrefix, tag, distance, hex, dirty);
    PiecesFromParts(out, base, dirty, tagPrefix, Tagged(tag, distance, hex), fullOut, commitCount, dateOut);
  }

  /** The three stages of the parse on HEX[-dirty], the output without a tag. */
  lemma UntaggedParts(out: string, hex: string, tagPrefix: string, dirty: bool)
    requires hex != [] && AllHex(hex)
    requires out == hex + (if dirty then "-dirty" else "")
    ensures Strip(out) == out && SplitDirty(out) == (hex, dirty)
    ensures ParseDescribe(hex, tagPrefix, out) == Success(NoTag)
  {
    assert IsHex(hex[0]);
    StripDescribe(hex, dirty);
    SplitDirtyMark(hex, dirty);
    ParseDescribeUntagged(hex, tagPrefix, out);
  }

  lemma DescribeShape(tagPrefix: string, tag: string, d: string, hex: string, mark: string)
    ensures tagPrefix + (tag + "-" + d + "-g" + hex + mark) == ((tagPrefix + tag) + ("-" + d + "-g" + hex)) + mark
  {
  }

  lemma RoundTripTagged(p: Pieces, out: string, tagPrefix: string, fullOut: string, commitCount: nat, dateOut: string)
    requires HasTag(p) && p.short != [] && AllHex(p.short)
    requires '\n' !in tagPrefix + p.closestTag.value && (tagPrefix + p.closestTag.value)[0] !in Whitespace
    requires out == tagPrefix + RenderGitDescribeLong(p)
    ensures ParsedAs(PiecesFromDescribe(out, tagPrefix, fullOut, commitCount, dateOut),
      Tagged(p.closestTag.value, p.distance, p.short), p.dirty, commitCount)
  {
    var tag, d, mark := p.closestTag.value, NatToString(p.distance), DirtyMark(p, "-dirty");
    DescribeShape(tagPrefix, tag, d, p.short, mark);
    ParseTagged(out, (tagPrefix + tag) + ("-" + d + "-g" + p.short), tagPrefix, tag, p.distance, p.short, p.dirty,
                fullOut, commitCount, dateOut);
  }

  lemma RoundTripUntagged(p: Pieces, out: string, tagPrefix: string, fullOut: string, commitCount: nat, dateOut: string)
    requires !HasTag(p) && p.short != [] && AllHex(p.short)
    requires out == RenderGitDescribeLong(p)
    ensures ParsedAs(PiecesFromDescribe(out, tagPrefix, fullOut, commitCount, dateOut), NoTag, p.dirty, commitCount)
  {
    UntaggedParts(out, p.short, tagPrefix, p.dirty);
    PiecesFromParts(out, p.short, p.dirty, tagPrefix, NoTag, fullOut, commitCount, dateOut);
  }

  /**
   * `render_git_describe_long` is what `git describe --long` prints (the tag prefix aside),
   * and the describe parse reads the pieces back: tag, distance, hash and dirty flag with a
   * tag; without one, the dirty flag and the absence of a tag.
   */
  lemma DescribeRoundTrip(p: Pieces, tagPrefix: string, fullOut: string, commitCount: nat, dateOut: string)
    requires p.short != [] && AllHex(p.short)
    requires HasTag(p) ==> '\n' !in tagPrefix + p.closestTag.value && (tagPrefix + p.closestTag.value)[0] !in Whitespace
    ensures ParsedAs(
      PiecesFromDescribe((if HasTag(p) then tagPrefix else "") + RenderGitDescribeLong(p), tagPrefix, fullOut, commitCount, dateOut),
      if HasTag(p) then Tagged(p.closestTag.value, p.distance, p.short) else NoTag,
      p.dirty, commitCount)
  {
    if HasTag(p) {
      RoundTripTagged(p, tagPrefix + RenderGitDescribeLong(p), tagPrefix, fullOut, commitCount, dateOut);
    } else {
      assert "" + RenderGitDescribeLong(p) == RenderGitDescribeLong(p);
      RoundTripUntagged(p, RenderGitDescribeLong(p), tagPrefix, fullOut, commitCount, dateOut);
    }
  }
}
