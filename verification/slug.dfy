/**
 The slug generator of the admin page:
   title.toLowerCase().replace(/[^a-z0-9]+/g, "-").replace(/(^-|-$)/g, "")
 Lower-casing is modelled for ASCII letters only.
 */
module Slug {

  /** The characters a slug keeps from its title. */
  predicate IsAlnum(c: char) {
    'a' <= c <= 'z' || '0' <= c <= '9'
  }

  /** `toLowerCase` on one character: A-Z become a-z, everything else is kept. */
  function LowerChar(c: char): char {
    if 'A' <= c <= 'Z' then (c as int + 32) as char else c
  }

  function Lower(s: string): string {
    seq(|s|, i requires 0 <= i < |s| => LowerChar(s[i]))
  }

  /**
   `.replace(/[^a-z0-9]+/g, "-")`: every maximal run of other characters becomes
   a single dash. `inRun` says that the character before `s` already belonged to
   a replaced run.
   */
  function Collapse(s: string, inRun: bool): (r: string)
    ensures Collapsed(r)
    ensures inRun ==> r == [] || r[0] != '-'
    ensures Dashless(r) == Alnums(s)
  {
    if s == [] then []
    else if IsAlnum(s[0]) then
      var rest := Collapse(s[1..], false);
      assert ([s[0]] + rest)[1..] == rest;
      [s[0]] + rest
    else if inRun then
      Collapse(s[1..], true)
    else
      var rest := Collapse(s[1..], true);
      assert (['-'] + rest)[1..] == rest;
      ['-'] + rest
  }

  /** `.replace(/(^-|-$)/g, "")`: drop one dash at the start and one at the end. */
  function TrimDashes(s: string): string {
    DropTrailingDash(DropLeadingDash(s))
  }

  /** The `^-` alternative. */
  function DropLeadingDash(s: string): string {
    if |s| > 0 && s[0] == '-' then s[1..] else s
  }

  /** The `-$` alternative. */
  function DropTrailingDash(t: string): string {
    if |t| > 0 && t[|t| - 1] == '-' then t[..|t| - 1] else t
  }

  function Slugify(title: string): (r: string)
    ensures IsSlug(r)
    ensures Dashless(r) == Alnums(Lower(title))
    ensures r == [] <==> Alnums(Lower(title)) == []
  {
    var c := Collapse(Lower(title), false);
    TrimShape(c);
    TrimDashes(c)
  }

  /** The characters of `s` other than dashes, in order. */
  function Dashless(s: string): string {
    if s == [] then [] else (if s[0] == '-' then [] else [s[0]]) + Dashless(s[1..])
  }

  /** The letters and digits of `s`, in order. */
  function Alnums(s: string): string {
    if s == [] then [] else (if IsAlnum(s[0]) then [s[0]] else []) + Alnums(s[1..])
  }

  /** A slug: letters, digits and single dashes between them. */
  predicate IsSlug(s: string) {
    Collapsed(s) && (s == [] || (s[0] != '-' && s[|s| - 1] != '-'))
  }

  /** Letters, digits and dashes, never two dashes in a row: what collapsing leaves. */
  predicate Collapsed(s: string) {
    && (forall i :: 0 <= i < |s| ==> IsAlnum(s[i]) || s[i] == '-')
    && (forall i :: 0 <= i < |s| - 1 ==> s[i] != '-' || s[i + 1] != '-')
  }

  /** Trimming a collapsed title leaves a slug with the same non-dash characters. */
  lemma TrimShape(c: string)
    requires Collapsed(c)
    ensures IsSlug(TrimDashes(c))
    ensures Dashless(TrimDashes(c)) == Dashless(c)
  {
    LeadingDashShape(c);
    TrailingDashShape(DropLeadingDash(c));
  }

  lemma LeadingDashShape(c: string)
    requires Collapsed(c)
    ensures Collapsed(DropLeadingDash(c))
    ensures DropLeadingDash(c) == [] || DropLeadingDash(c)[0] != '-'
    ensures Dashless(DropLeadingDash(c)) == Dashless(c)
  {
    if |c| > 0 && c[0] == '-' {
      var t := c[1..];
      assert forall i :: 0 <= i < |t| ==> t[i] == c[i + 1];
      if |c| > 1 {
        assert c[0] == '-' ==> c[1] != '-';
      }
    }
  }

  lemma TrailingDashShape(t: string)
    requires Collapsed(t) && (t == [] || t[0] != '-')
    ensures IsSlug(DropTrailingDash(t))
    ensures Dashless(DropTrailingDash(t)) == Dashless(t)
  {
    if |t| > 0 && t[|t| - 1] == '-' {
      var u := t[..|t| - 1];
      assert t == u + ['-'];
      DashlessConcat(u, ['-']);
      assert forall i :: 0 <= i < |u| ==> u[i] == t[i];
      if |u| > 0 {
        assert t[|t| - 2] != '-';
      }
    }
  }

  lemma {:induction false} DashlessConcat(a: string, b: string)
    ensures Dashless(a + b) == Dashless(a) + Dashless(b)
  {
    if a == [] {
      assert a + b == b;
    } else {
      assert (a + b)[0] == a[0];
      assert (a + b)[1..] == a[1..] + b;
      DashlessConcat(a[1..], b);
    }
  }

  /** The slugs are exactly the strings slug generation leaves unchanged. */
  lemma SlugFixedPoints(s: string)
    ensures Slugify(s) == s <==> IsSlug(s)
  {
    if IsSlug(s) {
      assert Lower(s) == s;
      CollapseFixed(s, false);
    }
  }

  /** Generating a slug from a generated slug gives it back. */
  lemma SlugifyIdempotent(title: string)
    ensures Slugify(Slugify(title)) == Slugify(title)
  {
    SlugFixedPoints(Slugify(title));
  }

  /** Collapsing leaves a collapsed string alone, unless it would start a second dash. */
  lemma {:induction false} CollapseFixed(s: string, inRun: bool)
    requires Collapsed(s) && (inRun ==> s == [] || s[0] != '-')
    ensures Collapse(s, inRun) == s
  {
    if s != [] {
      assert s == [s[0]] + s[1..];
      assert Collapsed(s[1..]) by {
        assert forall i :: 0 <= i < |s[1..]| ==> s[1..][i] == s[i + 1];
      }
      if |s| > 1 {
        assert s[0] != '-' || s[1] != '-';
      }
      CollapseFixed(s[1..], !IsAlnum(s[0]));
    }
  }

  /**
   Reference definition: the words of `s` (its maximal runs of letters and digits)
   joined by single dashes. `started` says a word has been emitted already, `gap`
   that a separator has been seen since.
   */
  function JoinWords(s: string, started: bool, gap: bool): string {
    if s == [] then []
    else if IsAlnum(s[0]) then (if started && gap then "-" else "") + [s[0]] + JoinWords(s[1..], true, false)
    else JoinWords(s[1..], started, true)
  }

  /** The slug of a title is its lower-cased words joined by single dashes. */
  lemma SlugifyJoinsWords(title: string)
    ensures Slugify(title) == JoinWords(Lower(title), false, false)
  {
    var s := Lower(title);
    var w := JoinWords(s, false, false);
    CollapseBeforeFirstWord(s, false, false);
    WordsShape(s, false, false);
    assert Slugify(title) == TrimDashes(LeadDash(s, false) + w + TrailDash(s));
    if w == [] {
      assert LeadDash(s, false) + w + TrailDash(s) == LeadDash(s, false);
    } else {
      TrimFramed(LeadDash(s, false), w, TrailDash(s));
    }
  }

  /** Trimming takes off one optional dash on each side of a word sequence. */
  lemma TrimFramed(lead: string, w: string, trail: string)
    requires lead == "" || lead == "-"
    requires trail == "" || trail == "-"
    requires w != [] && IsAlnum(w[0]) && IsAlnum(w[|w| - 1])
    ensures TrimDashes(lead + w + trail) == w
  {
    DropLeadFramed(lead, w + trail);
    assert lead + w + trail == lead + (w + trail);
    DropTrailFramed(w, trail);
  }

  /** The `^-` alternative takes off exactly the optional leading dash before a word. */
  lemma DropLeadFramed(lead: string, t: string)
    requires lead == "" || lead == "-"
    requires t != [] && IsAlnum(t[0])
    ensures DropLeadingDash(lead + t) == t
  {
    if lead == "-" {
      assert (lead + t)[1..] == t;
    } else {
      assert lead + t == t;
    }
  }

  /** The `-$` alternative takes off exactly the optional trailing dash after a word. */
  lemma DropTrailFramed(w: string, trail: string)
    requires trail == "" || trail == "-"
    requires w != [] && IsAlnum(w[|w| - 1])
    ensures DropTrailingDash(w + trail) == w
  {
    if trail == "-" {
      assert (w + trail)[..|w|] == w;
    } else {
      assert w + trail == w;
    }
  }

  /** Whether collapsing `s` ends in a dash after the first word has been emitted. */
  predicate EndsInRun(s: string, inRun: bool) {
    if s == [] then inRun else !IsAlnum(s[|s| - 1])
  }

  /** After the first word, collapsing emits a run's dash eagerly and joining emits it before the next word. */
  lemma {:induction false} CollapseAfterFirstWord(s: string, inRun: bool)
    ensures (if inRun then "-" else "") + Collapse(s, inRun)
            == JoinWords(s, true, inRun) + (if EndsInRun(s, inRun) then "-" else "")
  {
    if s != [] {
      var t, next := s[1..], !IsAlnum(s[0]);
      CollapseAfterFirstWord(t, next);
      EndsInRunStep(s, inRun);
      var c, j := Collapse(t, next), JoinWords(t, true, next);
      var lead, dash := (if inRun then "-" else ""), (if EndsInRun(s, inRun) then "-" else "");
      if IsAlnum(s[0]) {
        AlnumStep(s, inRun, true, inRun);
        NoPrefix(c);
        Regroup(lead, [s[0]], c, j, dash);
      } else {
        SeparatorStep(s, inRun, true, inRun);
      }
    }
  }

  /** One step of collapsing and joining at a letter or digit. */
  lemma AlnumStep(s: string, inRun: bool, started: bool, gap: bool)
    requires s != [] && IsAlnum(s[0])
    ensures Collapse(s, inRun) == [s[0]] + Collapse(s[1..], false)
    ensures JoinWords(s, started, gap) == (if started && gap then "-" else "") + [s[0]] + JoinWords(s[1..], true, false)
  {
  }

  /** One step of collapsing and joining at a separator. */
  lemma SeparatorStep(s: string, inRun: bool, started: bool, gap: bool)
    requires s != [] && !IsAlnum(s[0])
    ensures (if inRun then "-" else "") + Collapse(s, inRun) == "-" + Collapse(s[1..], true)
    ensures JoinWords(s, started, gap) == JoinWords(s[1..], started, true)
  {
    if !inRun {
      NoPrefix(Collapse(s, inRun));
    }
  }

  /** Whether the text ends inside a run does not change by stepping over its first character. */
  lemma EndsInRunStep(s: string, inRun: bool)
    requires s != []
    ensures EndsInRun(s, inRun) == EndsInRun(s[1..], !IsAlnum(s[0]))
  {
    if |s| > 1 {
      assert s[|s| - 1] == s[1..][|s| - 2];
    }
  }

  /** Prefixing the empty string, as the optional-dash terms do when no dash is due. */
  lemma NoPrefix(x: string)
    ensures "" + x == x
  {
  }

  /** Moving a head through an equation between a joined and a collapsed tail. */
  lemma Regroup(lead: string, h: string, c: string, j: string, dash: string)
    requires c == j + dash
    ensures lead + (h + c) == (lead + h + j) + dash
  {
  }

  /** The dash collapsing puts before the first word: there is a separator at the start. */
  function LeadDash(s: string, inRun: bool): string {
    if !inRun && |s| > 0 && !IsAlnum(s[0]) then "-" else ""
  }

  /** The dash collapsing puts after the last word: there is a word, and a separator at the end. */
  function TrailDash(s: string): string {
    if Alnums(s) != [] && !IsAlnum(s[|s| - 1]) then "-" else ""
  }

  /** Before the first word, collapsing emits at most one leading dash that joining leaves out. */
  lemma {:induction false} CollapseBeforeFirstWord(s: string, inRun: bool, gap: bool)
    ensures Collapse(s, inRun) == LeadDash(s, inRun) + JoinWords(s, false, gap) + TrailDash(s)
    decreases |s|, 1
  {
    if s != [] {
      if IsAlnum(s[0]) {
        FirstWordStarts(s, inRun, gap);
        assert LeadDash(s, inRun) == "";
        assert TrailDash(s) == (if !IsAlnum(s[|s| - 1]) then "-" else "");
        NoPrefix(JoinWords(s, false, gap));
      } else {
        SkipSeparator(s, gap);
        if inRun {
          assert Collapse(s, inRun) == Collapse(s[1..], true);
          assert LeadDash(s, inRun) == "";
          NoPrefix(JoinWords(s, false, gap));
        } else {
          assert Collapse(s, inRun) == "-" + Collapse(s[1..], true);
          assert LeadDash(s, inRun) == "-";
        }
      }
    }
  }

  /** Past a separator before the first word, collapsing continues inside the run. */
  lemma {:induction false} SkipSeparator(s: string, gap: bool)
    requires s != [] && !IsAlnum(s[0])
    ensures Collapse(s[1..], true) == JoinWords(s, false, gap) + TrailDash(s)
    decreases |s|, 0
  {
    var t := s[1..];
    CollapseBeforeFirstWord(t, true, true);
    assert LeadDash(t, true) == "";
    assert Alnums(s) == Alnums(t);
    assert TrailDash(s) == TrailDash(t) by {
      if t != [] {
        assert s[|s| - 1] == t[|t| - 1];
      }
    }
    assert JoinWords(s, false, gap) == JoinWords(t, false, true);
    NoPrefix(JoinWords(t, false, true));
  }

  /** Collapsing from the first letter or digit on: the first word starts without a dash. */
  lemma {:induction false} FirstWordStarts(s: string, inRun: bool, gap: bool)
    requires s != [] && IsAlnum(s[0])
    ensures Collapse(s, inRun)
            == JoinWords(s, false, gap) + (if !IsAlnum(s[|s| - 1]) then "-" else "")
  {
    var t := s[1..];
    CollapseAfterFirstWord(t, false);
    EndsInRunStep(s, false);
    AlnumStep(s, inRun, false, gap);
    NoPrefix(Collapse(t, false));
    Regroup("", [s[0]], Collapse(t, false), JoinWords(t, true, false), if EndsInRun(s, false) then "-" else "");
  }

  /** Joined words are empty exactly when there is no letter or digit, and otherwise end in one. */
  lemma {:induction false} WordsShape(s: string, started: bool, gap: bool)
    ensures JoinWords(s, started, gap) == [] <==> Alnums(s) == []
    ensures JoinWords(s, started, gap) != [] ==> IsAlnum(JoinWords(s, started, gap)[|JoinWords(s, started, gap)| - 1])
    ensures !started && JoinWords(s, started, gap) != [] ==> IsAlnum(JoinWords(s, started, gap)[0])
  {
    if s != [] {
      WordsShape(s[1..], IsAlnum(s[0]) || started, !IsAlnum(s[0]));
    }
  }
}
