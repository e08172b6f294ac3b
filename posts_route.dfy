/**
 * src/app/api/posts/route.ts: the public post listing (GET) and post
 * creation (POST) with its slug, tag and read-time rules.
 */
module PostsRoute {
  import opened Wrappers
  import opened Text
  import opened Store

  // ---------------------------------------------------------------------
  // GET /api/posts

  /** `published === 'all' ? undefined : published === 'false' ? false : true`:
      anything but `'all'` and `'false'`, absence included, means published only. */
  function ListingFilter(published: Option<string>): (f: PublishedFilter)
    ensures f == AnyStatus <==> published == Some("all")
    ensures f == DraftsOnly <==> published == Some("false")
  {
    if published == Some("all") then AnyStatus
    else if published == Some("false") then DraftsOnly
    else PublishedOnly
  }

  /** The rows the listing's `where` (and its `count`) selects. */
  function ListingMatches(posts: seq<Post>, published: Option<string>): seq<Post> {
    Filter(posts, p => Admits(ListingFilter(published), p))
  }

  function ListPosts(posts: seq<Post>, published: Option<string>, limit: Option<nat>, offset: Option<nat>)
    : (page: Page)
    ensures forall p :: p in page.posts ==> p in posts && Admits(ListingFilter(published), p)
    ensures published != Some("all") && published != Some("false") ==>
              forall p :: p in page.posts ==> p.published
    ensures page.total == |ListingMatches(posts, published)|
    ensures NewestFirst(page.posts)
    ensures limit.Some? ==> |page.posts| <= limit.value
    ensures limit.None? && offset.GetOr(0) == 0 ==>
              multiset(page.posts) == multiset(ListingMatches(posts, published))
    ensures page.hasMore <==> offset.GetOr(0) + |page.posts| < page.total
    ensures limit.None? ==> !page.hasMore
  {
    PageContents(ListingMatches(posts, published), limit, offset);
    Paginate(ListingMatches(posts, published), limit, offset)
  }

  // ---------------------------------------------------------------------
  // Slug normalisation

  /** The characters a slug keeps: `[a-z0-9]`. */
  predicate IsSlugAlnum(c: char) {
    'a' <= c <= 'z' || '0' <= c <= '9'
  }

  /** Letters, digits and single hyphens only. */
  predicate HyphenatedAlnum(s: string) {
    && (forall i :: 0 <= i < |s| ==> IsSlugAlnum(s[i]) || s[i] == '-')
    && (forall i :: 0 < i < |s| ==> s[i - 1] != '-' || s[i] != '-')
  }

  /** What the normalisation promises: `[a-z0-9]` runs joined by single hyphens, none at either end. */
  predicate IsWellFormedSlug(s: string) {
    HyphenatedAlnum(s) && (s == [] || (s[0] != '-' && s[|s| - 1] != '-'))
  }

  /** `s` without its leading run of characters outside `[a-z0-9]`. */
  function DropRun(s: string): (r: string)
    ensures |r| <= |s| && r == s[|s| - |r|..]
    ensures r == [] || IsSlugAlnum(r[0])
    decreases |s|
  {
    if s != [] && !IsSlugAlnum(s[0]) then DropRun(s[1..]) else s
  }

  /** `.replace(/[^a-z0-9]+/g, '-')`: every maximal run of characters outside
      `[a-z0-9]` becomes one hyphen. */
  function CollapseRuns(s: string): (r: string)
    ensures HyphenatedAlnum(r)
    ensures r == [] <==> s == []
    ensures r != [] ==> (r[0] == '-' <==> !IsSlugAlnum(s[0]))
    ensures r != [] && IsSlugAlnum(s[0]) ==> r[0] == s[0]
    decreases |s|
  {
    if s == [] then []
    else if IsSlugAlnum(s[0]) then [s[0]] + CollapseRuns(s[1..])
    else "-" + CollapseRuns(DropRun(s[1..]))
  }

  /** `.replace(/(^-|-$)/g, '')`: one leading and one trailing hyphen removed. */
  function StripEdgeHyphens(s: string): string {
    var a := if s != [] && s[0] == '-' then s[1..] else s;
    if a != [] && a[|a| - 1] == '-' then a[..|a| - 1] else a
  }

  /** The base slug of a title: lowercased, each run outside `[a-z0-9]` one hyphen, no hyphen at the ends. */
  function NormalizeSlug(title: string): (slug: string)
    ensures IsWellFormedSlug(slug)
    ensures |slug| <= |title|
  {
    var collapsed := CollapseRuns(ToLower(title));
    assert |collapsed| <= |title| by { CollapseRunsShorter(ToLower(title)); }
    StripEdgeHyphens(collapsed)
  }

  lemma {:induction false} CollapseRunsShorter(s: string)
    ensures |CollapseRuns(s)| <= |s|
    decreases |s|
  {
    if s != [] {
      if IsSlugAlnum(s[0]) {
        CollapseRunsShorter(s[1..]);
      } else {
        CollapseRunsShorter(DropRun(s[1..]));
      }
    }
  }

  /** The `[a-z0-9]` characters of `s`, in order. */
  function Alnums(s: string): string
    decreases |s|
  {
    if s == [] then [] else (if IsSlugAlnum(s[0]) then [s[0]] else []) + Alnums(s[1..])
  }

  lemma {:induction false} AlnumsAppend(a: string, b: string)
    ensures Alnums(a + b) == Alnums(a) + Alnums(b)
    decreases |a|
  {
    if a != [] {
      assert (a + b)[0] == a[0];
      assert (a + b)[1..] == a[1..] + b;
      AlnumsAppend(a[1..], b);
      calc {
        Alnums(a + b);
        (if IsSlugAlnum(a[0]) then [a[0]] else []) + Alnums(a[1..] + b);
        (if IsSlugAlnum(a[0]) then [a[0]] else []) + (Alnums(a[1..]) + Alnums(b));
        Alnums(a) + Alnums(b);
      }
    } else {
      assert a + b == b;
    }
  }

  lemma {:induction false} AlnumsDropRun(s: string)
    ensures Alnums(DropRun(s)) == Alnums(s)
    decreases |s|
  {
    if s != [] && !IsSlugAlnum(s[0]) {
      AlnumsDropRun(s[1..]);
    }
  }

  lemma {:induction false} AlnumsCollapseRuns(s: string)
    ensures Alnums(CollapseRuns(s)) == Alnums(s)
    decreases |s|
  {
    if s != [] {
      if IsSlugAlnum(s[0]) {
        AlnumsCollapseRuns(s[1..]);
        AlnumsAppend([s[0]], CollapseRuns(s[1..]));
      } else {
        AlnumsCollapseRuns(DropRun(s[1..]));
        AlnumsDropRun(s[1..]);
        AlnumsAppend("-", CollapseRuns(DropRun(s[1..])));
      }
    }
  }

  /** The slug keeps every letter and digit of the lowercased title, in order, and adds none:
      normalisation only replaces and removes the other characters. */
  lemma SlugKeepsAlnums(title: string)
    ensures Alnums(NormalizeSlug(title)) == Alnums(ToLower(title))
  {
    AlnumsCollapseRuns(ToLower(title));
    AlnumsStripEdgeHyphens(CollapseRuns(ToLower(title)));
  }

  lemma AlnumsStripEdgeHyphens(c: string)
    ensures Alnums(StripEdgeHyphens(c)) == Alnums(c)
  {
    var a := if c != [] && c[0] == '-' then c[1..] else c;
    if c != [] && c[0] == '-' {
      AlnumsDropHyphenHead(c);
    }
    if a != [] && a[|a| - 1] == '-' {
      AlnumsDropHyphenLast(a);
    }
  }

  lemma AlnumsDropHyphenHead(c: string)
    requires c != [] && c[0] == '-'
    ensures Alnums(c[1..]) == Alnums(c)
  {
    assert Alnums(c) == [] + Alnums(c[1..]);
  }

  lemma AlnumsDropHyphenLast(a: string)
    requires a != [] && a[|a| - 1] == '-'
    ensures Alnums(a[..|a| - 1]) == Alnums(a)
  {
    assert a == a[..|a| - 1] + "-";
    AlnumsAppend(a[..|a| - 1], "-");
    assert Alnums("-") == [] + Alnums("");
  }

  lemma {:induction false} CollapseRunsFixesHyphenated(s: string)
    requires HyphenatedAlnum(s)
    ensures CollapseRuns(s) == s
    decreases |s|
  {
    if s != [] {
      HyphenatedTail(s);
      CollapseRunsFixesHyphenated(s[1..]);
      if IsSlugAlnum(s[0]) {
        assert CollapseRuns(s) == [s[0]] + CollapseRuns(s[1..]);
      } else {
        assert DropRun(s[1..]) == s[1..];
        assert CollapseRuns(s) == "-" + CollapseRuns(s[1..]);
        assert s == "-" + s[1..];
      }
    }
  }

  /** The tail of a hyphenated string is one too, and after a hyphen comes a letter or digit. */
  lemma HyphenatedTail(s: string)
    requires HyphenatedAlnum(s) && s != []
    ensures HyphenatedAlnum(s[1..])
    ensures !IsSlugAlnum(s[0]) ==> s[1..] == [] || IsSlugAlnum(s[1])
  {
    if |s| > 1 {
      assert s[0] == '-' ==> s[1] != '-';
    }
  }

  /** A well-formed slug is its own normalisation, so normalising twice is normalising once. */
  lemma NormalizeSlugIdempotent(title: string)
    ensures NormalizeSlug(NormalizeSlug(title)) == NormalizeSlug(title)
  {
    var s := NormalizeSlug(title);
    assert ToLower(s) == s;
    CollapseRunsFixesHyphenated(s);
  }

  // ---------------------------------------------------------------------
  // The words of a slug

  /** A maximal piece a slug is made of: non-empty, letters and digits only. */
  predicate IsWord(w: string) {
    w != [] && forall i :: 0 <= i < |w| ==> IsSlugAlnum(w[i])
  }

  /** Where the leading run of `[a-z0-9]` characters of `s` ends. */
  function WordEnd(s: string): (n: nat)
    ensures n <= |s|
    ensures forall i :: 0 <= i < n ==> IsSlugAlnum(s[i])
    ensures n < |s| ==> !IsSlugAlnum(s[n])
    decreases |s|
  {
    if s != [] && IsSlugAlnum(s[0]) then 1 + WordEnd(s[1..]) else 0
  }

  /** The maximal runs of `[a-z0-9]` characters of `s`, in order. */
  function Words(s: string): (ws: seq<string>)
    ensures forall k :: 0 <= k < |ws| ==> IsWord(ws[k])
    ensures s != [] && IsSlugAlnum(s[0]) ==> ws != []
    decreases |s|
  {
    if s == [] then []
    else if !IsSlugAlnum(s[0]) then Words(s[1..])
    else
      var n := WordEnd(s);
      [s[..n]] + Words(s[n..])
  }

  /** The hyphen a trailing run outside `[a-z0-9]` leaves at the end of the collapsed text. */
  function TrailingHyphen(s: string): string {
    if s != [] && !IsSlugAlnum(s[|s| - 1]) then "-" else ""
  }

  lemma {:induction false} WordsDropRun(s: string)
    ensures Words(DropRun(s)) == Words(s)
    decreases |s|
  {
    if s != [] && !IsSlugAlnum(s[0]) {
      WordsDropRun(s[1..]);
    }
  }

  /** A run of letters and digits is copied by the collapse. */
  lemma {:induction false} CollapseRunsWord(w: string, rest: string)
    requires forall i :: 0 <= i < |w| ==> IsSlugAlnum(w[i])
    ensures CollapseRuns(w + rest) == w + CollapseRuns(rest)
    decreases |w|
  {
    if w != [] {
      var t := w[1..];
      assert CollapseRuns(w + rest) == [w[0]] + CollapseRuns(t + rest) by {
        assert (w + rest)[0] == w[0];
        assert (w + rest)[1..] == t + rest;
      }
      CollapseRunsWord(t, rest);
      ConsRegroup(w, t, CollapseRuns(rest));
    } else {
      assert w + rest == rest;
    }
  }

  lemma ConsRegroup(w: string, t: string, u: string)
    requires w != [] && t == w[1..]
    ensures [w[0]] + (t + u) == w + u
  {
    assert w == [w[0]] + t;
  }

  /** When nothing but a run outside `[a-z0-9]` is left, the text ends outside `[a-z0-9]`. */
  lemma {:induction false} DropRunToEmpty(s: string)
    requires s != [] && DropRun(s) == []
    ensures !IsSlugAlnum(s[|s| - 1])
    decreases |s|
  {
    assert !IsSlugAlnum(s[0]);
    if |s| > 1 {
      var t := s[1..];
      assert DropRun(t) == [];
      DropRunToEmpty(t);
      assert t[|t| - 1] == s[|s| - 1];
    }
  }

  /** Text that starts with a letter or digit: its first word is copied, and
      the words of the rest follow it. */
  lemma WordStep(s: string)
    requires s != [] && IsSlugAlnum(s[0])
    ensures var n := WordEnd(s);
      && n > 0
      && Words(s) == [s[..n]] + Words(s[n..])
      && CollapseRuns(s) == s[..n] + CollapseRuns(s[n..])
  {
    var n := WordEnd(s);
    assert s == s[..n] + s[n..];
    CollapseRunsWord(s[..n], s[n..]);
  }

  /** What follows the first word decides how the text ends. */
  lemma WordEndStep(s: string)
    requires s != [] && IsSlugAlnum(s[0])
    ensures var n := WordEnd(s);
      && (n == |s| ==> s[..n] == s && TrailingHyphen(s) == "")
      && (n < |s| ==> TrailingHyphen(s) == TrailingHyphen(s[n..]) && !IsSlugAlnum(s[n..][0]))
  {
    var n := WordEnd(s);
    if n < |s| {
      assert s[n..][|s| - n - 1] == s[|s| - 1];
    }
  }

  /** Text that starts outside `[a-z0-9]`: the run becomes one hyphen and adds no word. */
  lemma RunStep(r: string)
    requires r != [] && !IsSlugAlnum(r[0])
    ensures var r2 := DropRun(r[1..]);
      && CollapseRuns(r) == "-" + CollapseRuns(r2)
      && Words(r) == Words(r2)
  {
    WordsDropRun(r[1..]);
  }

  /** After the run, the text either ends (with the run) or goes on with a letter or digit. */
  lemma RunEndStep(r: string)
    requires r != [] && !IsSlugAlnum(r[0])
    ensures var r2 := DropRun(r[1..]);
      && (r2 == [] ==> TrailingHyphen(r) == "-")
      && (r2 != [] ==> TrailingHyphen(r2) == TrailingHyphen(r) && IsSlugAlnum(r2[0]))
  {
    if |r| > 1 && DropRun(r[1..]) == [] {
      DropRunToEmpty(r[1..]);
    }
  }

  /** Collapsing text that starts with a letter or digit gives its words joined
      by single hyphens, plus one hyphen when the text ends outside `[a-z0-9]`. */
  lemma {:induction false} CollapseRunsWords(s: string)
    requires s == [] || IsSlugAlnum(s[0])
    ensures CollapseRuns(s) == Join(Words(s), "-") + TrailingHyphen(s)
    decreases |s|
  {
    if s != [] {
      var rest := s[WordEnd(s)..];
      if rest == [] {
        OneWord(s);
      } else if DropRun(rest[1..]) == [] {
        OneWordThenRun(s);
      } else {
        CollapseRunsWords(DropRun(rest[1..]));
        MoreWords(s);
      }
    }
  }

  lemma OneWord(s: string)
    requires s != [] && IsSlugAlnum(s[0]) && s[WordEnd(s)..] == []
    ensures CollapseRuns(s) == Join(Words(s), "-") + TrailingHyphen(s)
  {
    WordStep(s);
    WordEndStep(s);
    assert CollapseRuns(s) == s;
    assert Words(s) == [s];
    JoinOne(s);
    assert s + "" == s;
  }

  lemma OneWordThenRun(s: string)
    requires s != [] && IsSlugAlnum(s[0])
    requires var rest := s[WordEnd(s)..]; rest != [] && DropRun(rest[1..]) == []
    ensures CollapseRuns(s) == Join(Words(s), "-") + TrailingHyphen(s)
  {
    WordStep(s);
    WordEndStep(s);
    var n := WordEnd(s);
    var rest := s[n..];
    RunStep(rest);
    RunEndStep(rest);
    AppendHyphen(CollapseRuns(s), s[..n], CollapseRuns(rest), CollapseRuns(DropRun(rest[1..])));
    AppendNoWords(Words(s), s[..n], Words(rest), Words(DropRun(rest[1..])));
    JoinOne(s[..n]);
  }

  lemma MoreWords(s: string)
    requires s != [] && IsSlugAlnum(s[0])
    requires var rest := s[WordEnd(s)..]; rest != [] && DropRun(rest[1..]) != []
    requires var rest2 := DropRun(s[WordEnd(s)..][1..]);
      CollapseRuns(rest2) == Join(Words(rest2), "-") + TrailingHyphen(rest2)
    ensures CollapseRuns(s) == Join(Words(s), "-") + TrailingHyphen(s)
  {
    WordStep(s);
    WordEndStep(s);
    var n := WordEnd(s);
    var w := s[..n];
    var rest := s[n..];
    RunStep(rest);
    RunEndStep(rest);
    var rest2 := DropRun(rest[1..]);
    var ws := Words(rest2);
    JoinCons(w, ws);
    Regroup(CollapseRuns(s), w, CollapseRuns(rest), CollapseRuns(rest2),
            Join(ws, "-"), TrailingHyphen(rest2));
  }

  lemma Regroup(whole: string, w: string, c: string, c2: string, j: string, t: string)
    requires whole == w + c && c == "-" + c2 && c2 == j + t
    ensures whole == (w + "-" + j) + t
  {
  }

  lemma AppendHyphen(whole: string, w: string, c: string, c2: string)
    requires whole == w + c && c == "-" + c2 && c2 == []
    ensures whole == w + "-"
  {
  }

  lemma AppendNoWords(whole: seq<string>, w: string, ws: seq<string>, ws2: seq<string>)
    requires whole == [w] + ws && ws == ws2 && ws2 == []
    ensures whole == [w]
  {
  }

  lemma JoinOne(w: string)
    ensures Join([w], "-") == w
  {
  }

  lemma JoinCons(w: string, ws: seq<string>)
    requires ws != []
    ensures Join([w] + ws, "-") == w + "-" + Join(ws, "-")
  {
    assert ([w] + ws)[1..] == ws;
  }

  /** Joined words neither start nor end with a hyphen. */
  lemma {:induction false} JoinWordsEdges(ws: seq<string>)
    requires forall k :: 0 <= k < |ws| ==> IsWord(ws[k])
    ensures Join(ws, "-") == [] <==> ws == []
    ensures ws != [] ==> Join(ws, "-")[0] != '-' && Join(ws, "-")[|Join(ws, "-")| - 1] != '-'
    decreases |ws|
  {
    if |ws| > 1 {
      JoinWordsEdges(ws[1..]);
    }
  }

  /** Stripping the edge hyphens from collapsed text leaves exactly its joined words. */
  lemma StripJoinedWords(ws: seq<string>, t: string)
    requires forall k :: 0 <= k < |ws| ==> IsWord(ws[k])
    requires t == "" || t == "-"
    requires ws == [] ==> t == ""
    ensures StripEdgeHyphens(Join(ws, "-") + t) == Join(ws, "-")
  {
    JoinWordsEdges(ws);
    var j := Join(ws, "-");
    if t == "-" {
      assert (j + t)[..|j + t| - 1] == j;
    } else {
      assert j + t == j;
    }
  }

  /** A hyphen in front of text that does not start with one is stripped with no other effect. */
  lemma StripLeadingHyphen(c: string)
    requires c == [] || c[0] != '-'
    ensures StripEdgeHyphens("-" + c) == StripEdgeHyphens(c)
  {
    assert ("-" + c)[1..] == c;
  }

  /** The base slug is the words of the lowercased title, joined by single
      hyphens: every run of other characters between two words becomes one
      hyphen, and the runs at either end disappear. */
  lemma NormalizeSlugWords(title: string)
    ensures NormalizeSlug(title) == Join(Words(ToLower(title)), "-")
  {
    var s := ToLower(title);
    assert NormalizeSlug(title) == StripEdgeHyphens(CollapseRuns(s));
    if s != [] && !IsSlugAlnum(s[0]) {
      StripWordsAfterRun(s);
    } else {
      StripWords(s);
    }
  }

  lemma StripWords(s: string)
    requires s == [] || IsSlugAlnum(s[0])
    ensures StripEdgeHyphens(CollapseRuns(s)) == Join(Words(s), "-")
  {
    CollapseRunsWords(s);
    StripJoinedWords(Words(s), TrailingHyphen(s));
  }

  lemma StripWordsAfterRun(s: string)
    requires s != [] && !IsSlugAlnum(s[0])
    ensures StripEdgeHyphens(CollapseRuns(s)) == Join(Words(s), "-")
  {
    RunStep(s);
    RunEndStep(s);
    var s2 := DropRun(s[1..]);
    var ws := Words(s2);
    var c := CollapseRuns(s2);
    CollapseRunsWords(s2);
    assert c == Join(ws, "-") + TrailingHyphen(s2);
    JoinWordsEdges(ws);
    assert c == [] || c[0] != '-';
    StripLeadingHyphen(c);
    StripJoinedWords(ws, TrailingHyphen(s2));
    assert CollapseRuns(s) == "-" + c;
    assert Words(s) == ws;
  }

  lemma {:induction false} WordEndIs(s: string, n: nat)
    requires n <= |s|
    requires forall i :: 0 <= i < n ==> IsSlugAlnum(s[i])
    requires n < |s| ==> !IsSlugAlnum(s[n])
    ensures WordEnd(s) == n
    decreases n
  {
    if n > 0 {
      WordEndIs(s[1..], n - 1);
    }
  }

  /** A run outside `[a-z0-9]` in front of text that is empty or starts with a letter or digit is dropped whole. */
  lemma {:induction false} DropRunPrefix(x: string, b: string)
    requires forall i :: 0 <= i < |x| ==> !IsSlugAlnum(x[i])
    requires b == [] || IsSlugAlnum(b[0])
    ensures DropRun(x + b) == b
    decreases |x|
  {
    if x != [] {
      assert (x + b)[1..] == x[1..] + b;
      DropRunPrefix(x[1..], b);
    } else {
      assert x + b == b;
    }
  }

  /** The first word of a word followed by text that does not continue it is that word. */
  lemma WordEndOfWordThen(a: string, t: string)
    requires IsWord(a) && (t == [] || !IsSlugAlnum(t[0]))
    ensures WordEnd(a + t) == |a|
    ensures (a + t)[..|a|] == a && (a + t)[|a|..] == t
  {
    var s := a + t;
    assert forall i :: 0 <= i < |a| ==> s[i] == a[i];
    if t != [] {
      assert s[|a|] == t[0];
    }
    WordEndIs(s, |a|);
    assert s[..|a|] == a;
    assert s[|a|..] == t;
  }

  /** Text without a letter or digit holds no word. */
  lemma {:induction false} WordsNone(y: string)
    requires forall i :: 0 <= i < |y| ==> !IsSlugAlnum(y[i])
    ensures Words(y) == []
    decreases |y|
  {
    if y != [] {
      WordsNone(y[1..]);
    }
  }

  /** A word followed by text that does not continue it is the first of the words. */
  lemma WordsAfterWord(a: string, t: string)
    requires IsWord(a) && (t == [] || !IsSlugAlnum(t[0]))
    ensures Words(a + t) == [a] + Words(t)
  {
    WordEndOfWordThen(a, t);
    WordStep(a + t);
  }

  /** A run of other characters in front of text that starts a word adds no word. */
  lemma WordsAfterRun(x: string, t: string)
    requires x != [] && forall i :: 0 <= i < |x| ==> !IsSlugAlnum(x[i])
    requires t == [] || IsSlugAlnum(t[0])
    ensures Words(x + t) == Words(t)
  {
    RunStep(x + t);
    DropRunAfterHead(x, t);
  }

  /** A word followed by a (possibly empty) run of other characters has that one word. */
  lemma WordsOfWordThenRun(b: string, y: string)
    requires IsWord(b)
    requires forall i :: 0 <= i < |y| ==> !IsSlugAlnum(y[i])
    ensures Words(b + y) == [b]
  {
    WordsAfterWord(b, y);
    WordsNone(y);
  }

  lemma DropRunAfterHead(x: string, b: string)
    requires x != [] && forall i :: 0 <= i < |x| ==> !IsSlugAlnum(x[i])
    requires b == [] || IsSlugAlnum(b[0])
    ensures DropRun((x + b)[1..]) == b
  {
    assert (x + b)[1..] == x[1..] + b;
    DropRunPrefix(x[1..], b);
  }

  /** The words of a word, a run of other characters, another word and a (possibly empty) run of other characters. */
  lemma WordsOfTwo(a: string, x: string, b: string, y: string)
    requires IsWord(a) && IsWord(b) && x != []
    requires forall i :: 0 <= i < |x| ==> !IsSlugAlnum(x[i])
    requires forall i :: 0 <= i < |y| ==> !IsSlugAlnum(y[i])
    ensures Words(a + x + b + y) == [a, b]
  {
    var tail := b + y;
    var rest := x + tail;
    assert Words(a + rest) == [a] + Words(rest) by {
      assert rest[0] == x[0];
      WordsAfterWord(a, rest);
    }
    assert Words(rest) == Words(tail) by {
      assert tail[0] == b[0];
      WordsAfterRun(x, tail);
    }
    assert Words(tail) == [b] by {
      WordsOfWordThenRun(b, y);
    }
    ConcatRegroup(a, x, b, y);
    assert [a] + [b] == [a, b];
  }

  lemma ConcatRegroup(a: string, x: string, b: string, y: string)
    ensures a + x + b + y == a + (x + (b + y))
  {
  }

  /** Two words, in any case, with a non-empty run of other characters between
      them and possibly one after them, become the two words lowercased and
      joined by one hyphen. */
  lemma TwoWordsSlug(a: string, x: string, b: string, y: string)
    requires IsWord(ToLower(a)) && IsWord(ToLower(b)) && x != []
    requires forall i :: 0 <= i < |x| ==> !IsSlugAlnum(LowerChar(x[i]))
    requires forall i :: 0 <= i < |y| ==> !IsSlugAlnum(LowerChar(y[i]))
    ensures NormalizeSlug(a + x + b + y) == ToLower(a) + "-" + ToLower(b)
  {
    ToLowerAppend(a, x);
    ToLowerAppend(a + x, b);
    ToLowerAppend(a + x + b, y);
    WordsOfTwo(ToLower(a), ToLower(x), ToLower(b), ToLower(y));
    NormalizeSlugWords(a + x + b + y);
  }

  /** `"Hello, World!"` gives the slug `"hello-world"`. */
  lemma HelloWorldSlug()
    ensures NormalizeSlug("Hello, World!") == "hello-world"
  {
    HelloWorldWords();
    TwoWordsSlug("Hello", ", ", "World", "!");
    HelloWorldText();
  }

  lemma HelloWorldWords()
    ensures ToLower("Hello") == "hello" && ToLower("World") == "world"
  {
    assert ToLower("Hello")[0] == 'h';
    assert ToLower("World")[0] == 'w';
  }

  lemma HelloWorldText()
    ensures "Hello" + ", " + "World" + "!" == "Hello, World!"
    ensures "hello" + "-" + "world" == "hello-world"
  {
  }

  /** A title without any ASCII letter or digit gives the empty base slug, so the
      suffixed candidates of the unique-slug loop then begin with a hyphen. */
  lemma NoAlnumTitleGivesEmptyBase(title: string, k: nat)
    requires forall i :: 0 <= i < |title| ==> !IsSlugAlnum(LowerChar(title[i]))
    requires k >= 1
    ensures NormalizeSlug(title) == []
    ensures Candidate(NormalizeSlug(title), k) == "-" + NatToString(k)
  {
    NoAlnumCollapses(ToLower(title));
    assert Candidate([], k) == "-" + NatToString(k);
  }

  /** Text with no letter or digit collapses to at most one hyphen, which the
      edge stripping removes. */
  lemma NoAlnumCollapses(t: string)
    requires forall i :: 0 <= i < |t| ==> !IsSlugAlnum(t[i])
    ensures CollapseRuns(t) == if t == [] then [] else "-"
    ensures StripEdgeHyphens(CollapseRuns(t)) == []
  {
    if t != [] {
      assert DropRun(t[1..]) == [];
    }
  }

  // ---------------------------------------------------------------------
  // Unique slug

  /** The `counter`-th slug the loop tries: the base, then `${slug}-${counter}`. */
  function Candidate(base: string, k: nat): string {
    if k == 0 then base else base + "-" + NatToString(k)
  }

  /** Different attempts try different slugs, so the loop never retries one. */
  lemma CandidateInjective(base: string, j: nat, k: nat)
    ensures j != k ==> Candidate(base, j) != Candidate(base, k)
  {
    if j != k && j != 0 && k != 0 && Candidate(base, j) == Candidate(base, k) {
      assert Candidate(base, j)[|base| + 1..] == NatToString(j);
      assert Candidate(base, k)[|base| + 1..] == NatToString(k);
      NatToStringInjective(j, k);
    }
  }

  /** `slug` is the first candidate not in `taken`. */
  ghost predicate IsFirstFreeCandidate(base: string, taken: set<string>, slug: string) {
    slug !in taken &&
    exists k: nat :: slug == Candidate(base, k) && forall j: nat :: j < k ==> Candidate(base, j) in taken
  }

  /** The first `n` candidates. */
  ghost function CandidatesBelow(base: string, n: nat): set<string> {
    if n == 0 then {} else CandidatesBelow(base, n - 1) + {Candidate(base, n - 1)}
  }

  lemma {:induction false} CandidateNotBelow(base: string, n: nat, m: nat)
    requires n <= m
    ensures Candidate(base, m) !in CandidatesBelow(base, n)
  {
    if n > 0 {
      CandidateNotBelow(base, n - 1, m);
      CandidateInjective(base, n - 1, m);
    }
  }

  /** A taken candidate adds one slug to those the loop has used up. */
  lemma TakenCandidateUsesOneUp(base: string, taken: set<string>, n: nat)
    requires n >= 1 && Candidate(base, n - 1) in taken
    requires CandidatesBelow(base, n - 1) <= taken
    requires forall j: nat :: j < n - 1 ==> Candidate(base, j) in taken
    ensures CandidatesBelow(base, n) <= taken
    ensures forall j: nat :: j < n ==> Candidate(base, j) in taken
    ensures |taken - CandidatesBelow(base, n)| < |taken - CandidatesBelow(base, n - 1)|
  {
    var tried := CandidatesBelow(base, n - 1);
    var u := Candidate(base, n - 1);
    CandidateNotBelow(base, n - 1, n - 1);
    assert u in taken - tried;
    assert taken - (tried + {u}) == (taken - tried) - {u};
  }

  /** The `while (true)` loop of the POST handler: try the base, then `base-1`,
      `base-2`, ... until the store has no post with that slug. It ends for every
      finite store, because each attempt that fails uses up one taken slug. */
  method ChooseUniqueSlug(base: string, taken: set<string>) returns (slug: string)
    ensures IsFirstFreeCandidate(base, taken, slug)
  {
    var uniqueSlug := base;
    var counter: nat := 1;
    while true
      invariant counter >= 1
      invariant uniqueSlug == Candidate(base, counter - 1)
      invariant forall j: nat :: j < counter - 1 ==> Candidate(base, j) in taken
      invariant CandidatesBelow(base, counter - 1) <= taken
      decreases |taken - CandidatesBelow(base, counter - 1)|
    {
      if uniqueSlug !in taken {
        slug := uniqueSlug;
        ghost var k: nat := counter - 1;
        assert slug == Candidate(base, k) && forall j: nat :: j < k ==> Candidate(base, j) in taken;
        return;
      }
      TakenCandidateUsesOneUp(base, taken, counter);
      uniqueSlug := base + "-" + NatToString(counter);
      counter := counter + 1;
    }
  }

  /** The loop's result is determined by the base and the store. */
  lemma FirstFreeCandidateUnique(base: string, taken: set<string>, s1: string, s2: string)
    requires IsFirstFreeCandidate(base, taken, s1) && IsFirstFreeCandidate(base, taken, s2)
    ensures s1 == s2
  {
    var k1: nat :| s1 == Candidate(base, k1) && forall j: nat :: j < k1 ==> Candidate(base, j) in taken;
    var k2: nat :| s2 == Candidate(base, k2) && forall j: nat :: j < k2 ==> Candidate(base, j) in taken;
  }

  /** A free base slug is used as it is; a taken base whose `-1` form is free gets `-1`. */
  lemma FirstCollisions(base: string, taken: set<string>, slug: string)
    requires IsFirstFreeCandidate(base, taken, slug)
    ensures base !in taken ==> slug == base
    ensures base in taken && base + "-1" !in taken ==> slug == base + "-1"
  {
    if base !in taken {
      assert Candidate(base, 0) == base;
      assert IsFirstFreeCandidate(base, taken, base);
      FirstFreeCandidateUnique(base, taken, slug, base);
    } else if base + "-1" !in taken {
      assert Candidate(base, 1) == base + "-1";
      assert forall j: nat :: j < 1 ==> Candidate(base, j) in taken;
      assert IsFirstFreeCandidate(base, taken, base + "-1");
      FirstFreeCandidateUnique(base, taken, slug, base + "-1");
    }
  }

  // ---------------------------------------------------------------------
  // Read time and tags

  /** `Math.ceil(content.split(' ').length / 200)`: the pieces between single
      spaces (one more than the spaces), two hundred per minute, rounded up. */
  function ReadTime(content: string): (minutes: nat)
    ensures minutes >= 1
    ensures (minutes - 1) * 200 < Count(content, ' ') + 1 <= minutes * 200
  {
    (|Split(content, ' ')| + 199) / 200
  }

  /** `tags ? tags.map(tag => tag.toLowerCase()) : []`. */
  function NormalizeTags(tags: Option<seq<string>>): (r: seq<string>)
    ensures tags.None? ==> r == []
    ensures tags.Some? ==> |r| == |tags.value|
    ensures tags.Some? ==> forall i :: 0 <= i < |r| ==> r[i] == ToLower(tags.value[i])
    ensures forall i :: 0 <= i < |r| ==> ToLower(r[i]) == r[i]
  {
    if tags.None? then []
    else
      var ts := tags.value;
      seq(|ts|, i requires 0 <= i < |ts| => ToLower(ts[i]))
  }

  /** Creating a post with tags `["Tech", "WEB"]` stores `["tech", "web"]`. */
  lemma TagsExample()
    ensures NormalizeTags(Some(["Tech", "WEB"])) == ["tech", "web"]
  {
    assert ToLower("Tech") == "tech";
    assert ToLower("WEB") == "web";
  }

  // ---------------------------------------------------------------------
  // POST /api/posts

  /** The JSON body; absent fields are `None`. */
  datatype CreatePostRequest = CreatePostRequest(
    title: Option<string>,
    content: Option<string>,
    excerpt: Option<string>,
    published: Option<bool>,
    featured: Option<bool>,
    tags: Option<seq<string>>,
    coverImage: Option<string>)

  /** JavaScript truthiness of an optional string: present and not empty. */
  predicate Truthy(s: Option<string>) {
    s.Some? && s.value != ""
  }

  const MissingFieldsMessage := "Title and content are required"

  /** The record the handler creates from an accepted request. */
  ghost predicate CreatedFrom(p: Post, req: CreatePostRequest, authorId: string, existing: seq<Post>, now: Timestamp)
    requires Truthy(req.title) && Truthy(req.content)
  {
    && p.title == req.title.value
    && p.content == req.content.value
    && p.excerpt == req.excerpt
    && p.published == (req.published == Some(true))
    && p.featured == (req.featured == Some(true))
    && p.tags == NormalizeTags(req.tags)
    && p.readTime == ReadTime(req.content.value)
    && p.coverImage == req.coverImage
    && p.publishedAt == (if p.published then Some(now) else None)
    && p.authorId == authorId
    && p.createdAt == now
    && IsFirstFreeCandidate(NormalizeSlug(req.title.value), Slugs(existing), p.slug)
  }

  /** The POST handler. `now` is the clock reading both `new Date()` and the
      `createdAt` default take. */
  method CreatePost(table: PostTable, session: Session, req: CreatePostRequest, now: Timestamp)
    returns (r: Response<Post>)
    modifies table
    ensures SessionUserId(session).None? ==>
              r == Failure(401, UnauthorizedMessage) && table.rows == old(table.rows)
    ensures SessionUserId(session).Some? && !(Truthy(req.title) && Truthy(req.content)) ==>
              r == Failure(400, MissingFieldsMessage) && table.rows == old(table.rows)
    ensures SessionUserId(session).Some? && Truthy(req.title) && Truthy(req.content) ==>
              && r.Success? && r.status == 201
              && table.rows == old(table.rows) + [r.body]
              && CreatedFrom(r.body, req, SessionUserId(session).value, old(table.rows), now)
    ensures UniqueSlugs(old(table.rows)) ==> UniqueSlugs(table.rows)
  {
    var userId := SessionUserId(session);
    if userId.None? {
      return Failure(401, UnauthorizedMessage);
    }
    var normalizedTags := NormalizeTags(req.tags);
    if !Truthy(req.title) || !Truthy(req.content) {
      return Failure(400, MissingFieldsMessage);
    }
    var title := req.title.value;
    var content := req.content.value;
    var slug := ChooseUniqueSlug(NormalizeSlug(title), Slugs(table.rows));
    var published := req.published == Some(true);
    var post := Post(slug, title, content, req.excerpt, published, req.featured == Some(true),
                     normalizedTags, ReadTime(content), req.coverImage,
                     if published then Some(now) else None, userId.value, now);
    table.Create(post);
    r := Success(201, post);
  }

  /** A created post's slug is new to the store, keeps the store's slugs unique, and
      is the title's base slug or that slug with a numeric suffix. */
  lemma CreatedSlugIsFresh(p: Post, req: CreatePostRequest, authorId: string, existing: seq<Post>, now: Timestamp)
    requires Truthy(req.title) && Truthy(req.content)
    requires CreatedFrom(p, req, authorId, existing, now)
    requires UniqueSlugs(existing)
    ensures forall q :: q in existing ==> q.slug != p.slug
    ensures UniqueSlugs(existing + [p])
    ensures p.readTime >= 1
    ensures (p.publishedAt.Some?) <==> p.published
  {
  }
}
