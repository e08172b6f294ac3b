/**
 * src/components/editor/MarkdownEditor.tsx: the post editor's form state,
 * the comma-separated tag field, and the data it hands to `onSave`.
 */
module MarkdownEditor {
  import opened Wrappers
  import opened Text

  /** `tags.join(', ')`: how an existing post's tags fill the tag field. */
  function JoinTags(tags: seq<string>): string {
    Join(tags, ", ")
  }

  /** A tag the field can hold and give back: non-empty, trimmed, comma-free. */
  predicate CleanTag(t: string) {
    t != "" && IsTrimmed(t) && ',' !in t
  }

  /** The tags a list can round-trip through the field. */
  predicate CleanTags(tags: seq<string>) {
    forall i :: 0 <= i < |tags| ==> CleanTag(tags[i])
  }

  /** `.map(tag => tag.trim()).filter(Boolean)` over the comma-split pieces, in order. */
  function TrimNonEmpty(pieces: seq<string>): (tags: seq<string>)
    ensures |tags| <= |pieces|
    decreases |pieces|
  {
    if pieces == [] then [] else TagOf(pieces[0]) + TrimNonEmpty(pieces[1..])
  }

  /** What one comma-split piece contributes: its trimmed text, unless that is empty. */
  function TagOf(piece: string): seq<string> {
    var t := Trim(piece);
    if t == "" then [] else [t]
  }

  /** Trimming and dropping empty pieces leaves only clean tags, given comma-free pieces. */
  lemma {:induction false} TrimNonEmptyClean(pieces: seq<string>)
    requires forall i :: 0 <= i < |pieces| ==> ',' !in pieces[i]
    ensures CleanTags(TrimNonEmpty(pieces))
    decreases |pieces|
  {
    if pieces != [] {
      var t := Trim(pieces[0]);
      TrimKeepsAbsent(pieces[0], ',');
      assert t != "" ==> CleanTag(t);
      TrimNonEmptyClean(pieces[1..]);
      var rest := TrimNonEmpty(pieces[1..]);
      var r := TrimNonEmpty(pieces);
      assert r == (if t == "" then [] else [t]) + rest;
      forall i | 0 <= i < |r| ensures CleanTag(r[i]) {
        if t != "" && i > 0 {
          assert r[i] == rest[i - 1];
        }
      }
    }
  }

  /** `tags.split(',').map(tag => tag.trim()).filter(Boolean)`: every tag is non-empty,
      has no whitespace at either end, and holds no comma. */
  function ParseTags(field: string): (tags: seq<string>)
    ensures CleanTags(tags)
    ensures |tags| <= Count(field, ',') + 1
  {
    var pieces := Split(field, ',');
    TrimNonEmptyClean(pieces);
    TrimNonEmpty(pieces)
  }

  /** A single piece gives its trimmed text, or nothing when it is blank. */
  lemma TrimNonEmptyOne(p: string)
    ensures TrimNonEmpty([p]) == if IsBlank(p) then [] else [Trim(p)]
  {
    BlankIffTrimsToEmpty(p);
    assert [p][1..] == [];
  }

  /** Pieces are handled one at a time and in order, so the tags of two runs of
      pieces are the tags of the first followed by those of the second. */
  lemma {:induction false} TrimNonEmptyAppend(a: seq<string>, b: seq<string>)
    ensures TrimNonEmpty(a + b) == TrimNonEmpty(a) + TrimNonEmpty(b)
    decreases |a|
  {
    if a == [] {
      assert a + b == b;
    } else {
      var h := TagOf(a[0]);
      assert TrimNonEmpty(a + b) == h + TrimNonEmpty(a[1..] + b) by {
        assert (a + b)[0] == a[0];
        assert (a + b)[1..] == a[1..] + b;
      }
      TrimNonEmptyAppend(a[1..], b);
      TagsRegroup(TrimNonEmpty(a + b), h, TrimNonEmpty(a[1..]), TrimNonEmpty(b));
    }
  }

  lemma TagsRegroup(whole: seq<string>, h: seq<string>, x: seq<string>, y: seq<string>)
    requires whole == h + (x + y)
    ensures whole == (h + x) + y
  {
  }

  /** A comma cuts the field into two fields whose tags follow one another:
      together with `OneTagWithoutComma` this fixes the tags of every field,
      comma-separated piece by piece, in order. */
  lemma ParseTagsAtComma(a: string, b: string)
    ensures ParseTags(a + [','] + b) == ParseTags(a) + ParseTags(b)
  {
    SplitAtSeparator(a, ',', b);
    TrimNonEmptyAppend(Split(a, ','), Split(b, ','));
  }

  /** A clean tag typed alone is that one tag. */
  lemma OneCleanTag(t: string)
    requires CleanTag(t)
    ensures ParseTags(t) == [t]
  {
    OneTagWithoutComma(t);
    assert !IsBlank(t) by {
      assert !IsSpace(t[0]);
    }
  }

  /** Two clean tags with a comma between them, as in `"a,b"`, are those two tags. */
  lemma TwoTags(a: string, b: string)
    requires CleanTag(a) && CleanTag(b)
    ensures ParseTags(a + [','] + b) == [a, b]
  {
    OneCleanTag(a);
    OneCleanTag(b);
    ParseTagsAtComma(a, b);
  }

  /** A blank piece between two tags, as the `' '` in `"x, ,y"`, is dropped. */
  lemma BlankPieceDropped(a: string, blank: string, b: string)
    requires CleanTag(a) && CleanTag(b) && IsBlank(blank) && ',' !in blank
    ensures ParseTags(a + [','] + blank + [','] + b) == [a, b]
  {
    var rest := blank + [','] + b;
    FieldRegroup(a, blank, b);
    BlankThenTag(blank, b);
    OneCleanTag(a);
    ParseTagsAtComma(a, rest);
  }

  /** A blank piece before a tag adds nothing. */
  lemma BlankThenTag(blank: string, b: string)
    requires CleanTag(b) && IsBlank(blank) && ',' !in blank
    ensures ParseTags(blank + [','] + b) == [b]
  {
    assert ParseTags(blank) == [] by {
      OneTagWithoutComma(blank);
    }
    assert ParseTags(b) == [b] by {
      OneCleanTag(b);
    }
    ParseTagsAtComma(blank, b);
    assert [] + [b] == [b];
  }

  lemma FieldRegroup(a: string, blank: string, b: string)
    ensures a + [','] + blank + [','] + b == a + [','] + (blank + [','] + b)
  {
  }

  /** A field without commas holds at most one tag: its trimmed text, if any. */
  lemma OneTagWithoutComma(field: string)
    requires ',' !in field
    ensures ParseTags(field) == if IsBlank(field) then [] else [Trim(field)]
  {
    SplitWithoutSeparator(field, ',');
  }

  lemma CleanTagsTail(tags: seq<string>)
    requires tags != [] && CleanTags(tags)
    ensures CleanTags(tags[1..])
  {
    forall i | 0 <= i < |tags| - 1 ensures CleanTag(tags[1..][i]) {
      assert tags[1..][i] == tags[i + 1];
    }
  }

  /** Every tag with one space in front, as `', '` leaves them after a comma split. */
  function Spaced(tags: seq<string>): (pieces: seq<string>)
    ensures |pieces| == |tags|
    decreases |tags|
  {
    if tags == [] then [] else [" " + tags[0]] + Spaced(tags[1..])
  }

  lemma {:induction false} SplitSpacedJoin(tags: seq<string>)
    requires |tags| >= 1 && CleanTags(tags)
    ensures Split(" " + JoinTags(tags), ',') == Spaced(tags)
    decreases |tags|
  {
    if |tags| == 1 {
      SplitWithoutSeparator(" " + tags[0], ',');
    } else {
      var rest := tags[1..];
      assert JoinTags(tags) == tags[0] + ", " + JoinTags(rest);
      assert " " + JoinTags(tags) == (" " + tags[0]) + [','] + (" " + JoinTags(rest));
      SplitAfterPiece(" " + tags[0], ',', " " + JoinTags(rest));
      SplitSpacedJoin(rest);
      assert Spaced(tags) == [" " + tags[0]] + Spaced(rest);
    }
  }

  lemma TrimSpaced(t: string)
    requires IsTrimmed(t)
    ensures Trim(" " + t) == t
  {
    TrimDropsLeadingSpace(' ', t);
    assert " " + t == [' '] + t;
  }

  lemma {:induction false} TrimNonEmptySpaced(tags: seq<string>)
    requires CleanTags(tags)
    ensures TrimNonEmpty(Spaced(tags)) == tags
    decreases |tags|
  {
    if tags != [] {
      assert TrimNonEmpty(Spaced(tags[1..])) == tags[1..] by {
        CleanTagsTail(tags);
        TrimNonEmptySpaced(tags[1..]);
      }
      SpacedStep(tags);
      assert [tags[0]] + tags[1..] == tags;
    }
  }

  /** Joining with `', '` and parsing back gives the same list, for tags that are
      non-empty, trimmed and comma-free — which every parsed list is. */
  lemma {:induction false} ParseJoinTags(tags: seq<string>)
    requires CleanTags(tags)
    ensures ParseTags(JoinTags(tags)) == tags
  {
    if tags == [] {
      assert Split("", ',') == [""];
    } else if |tags| == 1 {
      SplitWithoutSeparator(tags[0], ',');
    } else {
      ParseJoinSeveralTags(tags);
    }
  }

  lemma {:induction false} ParseJoinSeveralTags(tags: seq<string>)
    requires |tags| >= 2 && CleanTags(tags)
    ensures ParseTags(JoinTags(tags)) == tags
  {
    var rest := tags[1..];
    assert CleanTag(tags[0]);
    calc {
      ParseTags(JoinTags(tags));
      TrimNonEmpty(Split(JoinTags(tags), ','));
      { PiecesOfJoin(tags); }
      TrimNonEmpty([tags[0]] + Spaced(rest));
      { TrimNonEmptyCons(tags[0], Spaced(rest)); }
      [tags[0]] + TrimNonEmpty(Spaced(rest));
      { CleanTagsTail(tags); TrimNonEmptySpaced(rest); }
      [tags[0]] + rest;
      { assert [tags[0]] + rest == tags; }
      tags;
    }
  }

  /** The comma split of joined tags: the first tag, then the others each after a space. */
  lemma PiecesOfJoin(tags: seq<string>)
    requires |tags| >= 2 && CleanTags(tags)
    ensures Split(JoinTags(tags), ',') == [tags[0]] + Spaced(tags[1..])
  {
    JoinTagsCons(tags);
    SplitAfterPiece(tags[0], ',', " " + JoinTags(tags[1..]));
    SplitSpacedJoin(tags[1..]);
  }

  lemma JoinTagsCons(tags: seq<string>)
    requires |tags| >= 2
    ensures JoinTags(tags) == tags[0] + [','] + (" " + JoinTags(tags[1..]))
  {
    assert JoinTags(tags) == tags[0] + ", " + JoinTags(tags[1..]);
  }

  lemma SpacedStep(tags: seq<string>)
    requires tags != [] && tags[0] != "" && IsTrimmed(tags[0])
    ensures TrimNonEmpty(Spaced(tags)) == [tags[0]] + TrimNonEmpty(Spaced(tags[1..]))
  {
    TrimSpaced(tags[0]);
    SpacedTail(tags);
    TrimNonEmptyStep(Spaced(tags));
  }

  lemma SpacedTail(tags: seq<string>)
    requires tags != []
    ensures Spaced(tags)[0] == " " + tags[0]
    ensures Spaced(tags)[1..] == Spaced(tags[1..])
  {
    assert ([" " + tags[0]] + Spaced(tags[1..]))[1..] == Spaced(tags[1..]);
  }

  lemma TrimNonEmptyStep(pieces: seq<string>)
    requires pieces != [] && Trim(pieces[0]) != ""
    ensures TrimNonEmpty(pieces) == [Trim(pieces[0])] + TrimNonEmpty(pieces[1..])
  {
  }

  lemma TrimNonEmptyCons(t: string, rest: seq<string>)
    requires t != "" && IsTrimmed(t)
    ensures TrimNonEmpty([t] + rest) == [t] + TrimNonEmpty(rest)
  {
    assert ([t] + rest)[1..] == rest;
  }

  /** The field a saved list produces parses back to the same list: parsing is a fixed point. */
  lemma ParseTagsStable(field: string)
    ensures ParseTags(JoinTags(ParseTags(field))) == ParseTags(field)
  {
    ParseJoinTags(ParseTags(field));
  }

  /** The object passed to `onSave`. */
  datatype PostData = PostData(title: string, content: string, excerpt: Option<string>,
                               tags: seq<string>, published: bool, featured: bool)

  /** `postData`, or `None` when the title or the content is blank after trimming. */
  function BuildPostData(title: string, content: string, excerpt: string, tags: string,
                         published: bool, featured: bool, isDraft: bool): (d: Option<PostData>)
    ensures d.None? <==> IsBlank(title) || IsBlank(content)
    ensures d.Some? ==> d.value.title == title && d.value.content == content
    ensures d.Some? ==> (d.value.excerpt.None? <==> excerpt == "")
    ensures d.Some? && excerpt != "" ==> d.value.excerpt == Some(excerpt)
    ensures d.Some? ==> d.value.tags == ParseTags(tags)
    ensures d.Some? ==> (d.value.published <==> !isDraft && published)
    ensures d.Some? ==> d.value.featured == featured
  {
    if IsBlank(title) || IsBlank(content) then None
    else Some(PostData(title, content, if excerpt == "" then None else Some(excerpt),
                       ParseTags(tags), if isDraft then false else published, featured))
  }

  /** The optional `initialData` of an existing post. */
  datatype InitialData = InitialData(title: Option<string>, content: Option<string>, excerpt: Option<string>,
                                     tags: Option<seq<string>>, published: Option<bool>, featured: Option<bool>)

  class Editor {
    var title: string
    var content: string
    var excerpt: string
    var tags: string
    var published: bool
    var featured: bool
    var loading: bool
    /** Whether the `onSave` prop was given. */
    const hasOnSave: bool

    /** The `useState` initialisers: absent or empty values become `''` or `false`. */
    constructor (initial: Option<InitialData>, onSave: bool)
      ensures initial.None? ==> title == "" && content == "" && excerpt == "" && tags == "" && !published && !featured
      ensures initial.Some? ==> title == initial.value.title.GetOr("") && content == initial.value.content.GetOr("")
      ensures initial.Some? ==> excerpt == initial.value.excerpt.GetOr("")
      ensures initial.Some? ==> tags == if initial.value.tags.Some? then JoinTags(initial.value.tags.value) else ""
      ensures initial.Some? ==> published == initial.value.published.GetOr(false)
      ensures initial.Some? ==> featured == initial.value.featured.GetOr(false)
      ensures !loading && hasOnSave == onSave
    {
      if initial.None? {
        title, content, excerpt, tags, published, featured := "", "", "", "", false, false;
      } else {
        var d := initial.value;
        title := d.title.GetOr("");
        content := d.content.GetOr("");
        excerpt := d.excerpt.GetOr("");
        tags := if d.tags.Some? then JoinTags(d.tags.value) else "";
        published := d.published.GetOr(false);
        featured := d.featured.GetOr(false);
      }
      loading := false;
      hasOnSave := onSave;
    }

    /** `handleSave(isDraft)`: returns what `onSave` receives, if it is called. A blank title or
        content stops before anything changes; otherwise loading ends cleared. */
    method HandleSave(isDraft: bool) returns (sent: Option<PostData>)
      modifies this
      ensures sent == if hasOnSave then BuildPostData(title, content, excerpt, tags, published, featured, isDraft) else None
      ensures loading == if IsBlank(title) || IsBlank(content) then old(loading) else false
      ensures title == old(title) && content == old(content) && excerpt == old(excerpt)
      ensures tags == old(tags) && published == old(published) && featured == old(featured)
    {
      if IsBlank(title) || IsBlank(content) {
        return None;
      }
      loading := true;
      sent := if hasOnSave then BuildPostData(title, content, excerpt, tags, published, featured, isDraft) else None;
      loading := false;
    }
  }

  /** Opening a post in the editor and saving it without touching the tag field sends
      the post's own tags back, when they are clean. */
  lemma UneditedTagsSurvive(initial: InitialData, isDraft: bool)
    requires initial.tags.Some? && CleanTags(initial.tags.value)
    requires !IsBlank(initial.title.GetOr("")) && !IsBlank(initial.content.GetOr(""))
    ensures BuildPostData(initial.title.GetOr(""), initial.content.GetOr(""), initial.excerpt.GetOr(""),
                          JoinTags(initial.tags.value), initial.published.GetOr(false),
                          initial.featured.GetOr(false), isDraft).value.tags == initial.tags.value
  {
    ParseJoinTags(initial.tags.value);
  }
}
