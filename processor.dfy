/**
 * The Obsidian-syntax pass that runs on the Markdown tree before it is
 * turned into HTML: on the value of every `text` node, `%%…%%` comments are
 * deleted, and then `[[target]]` / `[[target|display]]` wiki links are
 * replaced by their plain text. Both rewrites are global regular-expression
 * replacements, modelled here as left-to-right scans that make the same
 * choices the regular-expression engine makes.
 */
module Processor {
  import opened Optional
  import opened Text

  // ---------------------------------------------------------------------
  // %%comments%%
  // ---------------------------------------------------------------------

  /** A `%%` marker starts at index `i`. */
  predicate MarkerAt(s: string, i: int)
  {
    0 <= i && i + 1 < |s| && s[i] == '%' && s[i + 1] == '%'
  }

  predicate NoMarker(s: string)
  {
    forall i :: 0 <= i < |s| ==> !MarkerAt(s, i)
  }

  /** The nearest `%%` at or after `from`. */
  function NextMarker(s: string, from: nat): (r: Option<nat>)
    ensures r.Some? ==> from <= r.value && MarkerAt(s, r.value)
    ensures r.Some? ==> forall j :: from <= j < r.value ==> !MarkerAt(s, j)
    ensures r.None? ==> forall j :: from <= j ==> !MarkerAt(s, j)
    decreases |s| - from
  {
    if from + 1 >= |s| then None
    else if MarkerAt(s, from) then Some(from)
    else NextMarker(s, from + 1)
  }

  /**
   * All `%%…%%` comments deleted. At each position, a `%%` followed later by
   * another `%%` starts a comment that ends at the nearest such `%%`; the
   * scan resumes after it. A `%%` with no later `%%` stays as text.
   */
  function StripComments(s: string): (r: string)
    ensures |r| <= |s|
    decreases |s|
  {
    if |s| == 0 then ""
    else if MarkerAt(s, 0) && NextMarker(s, 2).Some? then
      StripComments(s[NextMarker(s, 2).value + 2..])
    else [s[0]] + StripComments(s[1..])
  }

  /** Text without `%%` has no comment to remove. */
  lemma {:induction false} NoMarkerUnchanged(s: string)
    requires NoMarker(s)
    ensures StripComments(s) == s
    decreases |s|
  {
    if |s| > 0 {
      assert !MarkerAt(s, 0);
      assert NoMarker(s[1..]) by {
        forall i | 0 <= i < |s[1..]| ensures !MarkerAt(s[1..], i) {
          assert !MarkerAt(s, i + 1);
        }
      }
      NoMarkerUnchanged(s[1..]);
      assert [s[0]] + s[1..] == s;
    }
  }

  /** Text without `%` has no `%%`. */
  lemma NoPercentNoMarker(s: string)
    requires '%' !in s
    ensures NoMarker(s)
  {
    forall i | 0 <= i < |s| ensures !MarkerAt(s, i) {
      assert s[i] in s;
    }
  }

  /** Text without `%` has no `%%`, and a `%` after it makes none either. */
  lemma NoPercentNoMarkerAfter(s: string)
    requires '%' !in s
    ensures NoMarker(s + "%")
  {
    var t := s + "%";
    forall i | 0 <= i < |t| ensures !MarkerAt(t, i) {
      if i < |s| { assert t[i] == s[i] && s[i] in s; }
    }
  }

  /**
   * No `%%` starts inside `a` when `a + "%"` has none and what follows `a`
   * starts with `%`: the first two characters of any window that starts in
   * `a` are the same in both texts.
   */
  lemma NoMarkerBefore(a: string, t: string)
    requires NoMarker(a + "%") && |t| > 0 && t[0] == '%'
    ensures forall j :: 0 <= j < |a| ==> !MarkerAt(a + t, j)
  {
    var u := a + "%";
    forall j | 0 <= j < |a| ensures !MarkerAt(a + t, j) {
      assert !MarkerAt(u, j);
      assert (a + t)[j] == u[j] && (a + t)[j + 1] == u[j + 1];
    }
  }

  /**
   * The closing `%%` of a comment is the one right after its text, when the
   * text holds no `%%` and does not end in `%` (a lone `%` inside is fine).
   */
  lemma ClosingMarker(x: string, b: string)
    requires NoMarker(x + "%")
    ensures NextMarker("%%" + x + "%%" + b, 2) == Some(2 + |x|)
  {
    var s := "%%" + x + "%%" + b;
    var t := x + ("%%" + b);
    assert s == "%%" + t;
    NoMarkerBefore(x, "%%" + b);
    assert MarkerAt(s, 2 + |x|);
    forall j | 2 <= j < 2 + |x| ensures !MarkerAt(s, j) {
      assert !MarkerAt(t, j - 2);
      assert s[j] == t[j - 2] && s[j + 1] == t[j - 1];
    }
  }

  /** Dropping the first character keeps a text free of `%%`. */
  lemma NoMarkerTail(a: string)
    requires |a| > 0 && NoMarker(a + "%")
    ensures NoMarker(a[1..] + "%")
  {
    var u := a + "%";
    var v := a[1..] + "%";
    assert v == u[1..];
    forall i | 0 <= i < |v| ensures !MarkerAt(v, i) {
      assert !MarkerAt(u, i + 1);
    }
  }

  /**
   * Text that holds no `%%` and does not end in `%` is copied as it is in
   * front of whatever a following `%` starts.
   */
  lemma {:induction false} PlainPrefix(a: string, t: string)
    requires NoMarker(a + "%") && |t| > 0 && t[0] == '%'
    ensures StripComments(a + t) == a + StripComments(t)
    decreases |a|
  {
    if |a| > 0 {
      var s := a + t;
      NoMarkerBefore(a, t);
      assert !MarkerAt(s, 0);
      assert s[1..] == a[1..] + t;
      NoMarkerTail(a);
      PlainPrefix(a[1..], t);
      assert [a[0]] + a[1..] == a;
    } else {
      assert a + t == t;
    }
  }

  /**
   * A comment is deleted with both its markers and the text before it is
   * kept: `a %%x%% b` becomes `a ` followed by what remains of ` b`. Neither
   * `a` nor `x` may hold `%%` or end in `%`; a lone `%` inside either is
   * fine.
   */
  lemma CommentRemoved(a: string, x: string, b: string)
    requires NoMarker(a + "%") && NoMarker(x + "%")
    ensures StripComments(a + "%%" + x + "%%" + b) == a + StripComments(b)
  {
    var c := "%%" + x + "%%" + b;
    assert a + "%%" + x + "%%" + b == a + c;
    PlainPrefix(a, c);
    ClosingMarker(x, b);
    assert c[2 + |x| + 2..] == b;
  }

  /** No `%%` starts inside `x` or across its end when `x` follows `p`. */
  lemma NoMarkerAfter(p: string, x: string)
    requires NoMarker(x)
    ensures forall j :: |p| <= j ==> !MarkerAt(p + x, j)
  {
    var s := p + x;
    forall j | |p| <= j ensures !MarkerAt(s, j) {
      if j + 1 < |s| {
        assert !MarkerAt(x, j - |p|);
        assert s[j] == x[j - |p|] && s[j + 1] == x[j - |p| + 1];
      }
    }
  }

  /** Text without `%%` after a lone `%` is copied as it is. */
  lemma SinglePercentKept(x: string)
    requires NoMarker(x)
    ensures StripComments("%" + x) == "%" + x
  {
    var s := "%" + x;
    NoMarkerAfter("%", x);
    assert NextMarker(s, 2).None?;
    assert s[1..] == x;
    NoMarkerUnchanged(x);
  }

  /** An opening `%%` with no `%%` after it stays as text. */
  lemma UnclosedAlone(x: string)
    requires NoMarker(x)
    ensures StripComments("%%" + x) == "%%" + x
  {
    var c := "%%" + x;
    NoMarkerAfter("%%", x);
    assert NextMarker(c, 2).None?;
    assert c[1..] == "%" + x;
    SinglePercentKept(x);
  }

  /**
   * A `%%` with no `%%` after it is not a comment: it and the text after it
   * stay. The text before it may not hold `%%` or end in `%`.
   */
  lemma UnclosedMarkerKept(a: string, x: string)
    requires NoMarker(a + "%") && NoMarker(x)
    ensures StripComments(a + "%%" + x) == a + "%%" + x
  {
    assert a + "%%" + x == a + ("%%" + x);
    PlainPrefix(a, "%%" + x);
    UnclosedAlone(x);
  }

  // ---------------------------------------------------------------------
  // [[wiki links]]
  // ---------------------------------------------------------------------

  /**
   * The plain text of a link body (the text between `[[` and `]]`): the
   * part after the first `|` when that part is not empty, else the whole
   * body (so `[[a|]]` keeps its `|`).
   */
  function LinkText(body: string): (r: string)
    ensures |r| <= |body|
    ensures |body| > 0 ==> |r| > 0
  {
    var (target, alias) := TakeUntil(body, '|');
    if |alias| > 1 then alias[1..] else body
  }

  /** `[[Page]]` shows `Page`. */
  lemma LinkTextPlain(t: string)
    requires '|' !in t
    ensures LinkText(t) == t
  {
  }

  /** `[[Page|Show]]` shows `Show`: everything after the first `|`. */
  lemma LinkTextAlias(t: string, u: string)
    requires '|' !in t && |u| > 0
    ensures LinkText(t + "|" + u) == u
  {
    TakeUntilConcat(t, "|" + u, '|');
    assert t + "|" + u == t + ("|" + u);
    assert ("|" + u)[1..] == u;
  }

  /** `[[Page|]]` shows `Page|`: an empty alias falls back to the whole body. */
  lemma LinkTextEmptyAlias(t: string)
    requires '|' !in t
    ensures LinkText(t + "|") == t + "|"
  {
    TakeUntilConcat(t, "|", '|');
  }

  /**
   * The link starting at the front of `s`, if any: its plain text and the
   * number of characters it spans. The body runs to the first `]`; it must
   * be non-empty and that `]` must be the first of `]]`.
   */
  function LinkAt(s: string): (r: Option<(string, nat)>)
    ensures r.Some? ==> 4 <= r.value.1 <= |s| && |r.value.0| + 4 <= r.value.1
  {
    if |s| >= 2 && s[0] == '[' && s[1] == '[' then
      var (body, rest) := TakeUntil(s[2..], ']');
      if |body| > 0 && |rest| >= 2 && rest[1] == ']' then Some((LinkText(body), |body| + 4)) else None
    else None
  }

  /** Every link replaced by its plain text, scanning left to right. */
  function RewriteLinks(s: string): (r: string)
    ensures |r| <= |s|
    decreases |s|
  {
    if |s| == 0 then ""
    else match LinkAt(s)
      case Some((text, n)) => text + RewriteLinks(s[n..])
      case None => [s[0]] + RewriteLinks(s[1..])
  }

  /** A link needs its closing `]]`: text without `]` is never rewritten. */
  lemma {:induction false} NoBracketUnchanged(s: string)
    requires ']' !in s
    ensures RewriteLinks(s) == s
    decreases |s|
  {
    if |s| > 0 {
      if |s| >= 2 {
        assert s[2..] == s[1..][1..];
        TakeUntilAbsent(s[2..], ']');
      }
      assert LinkAt(s).None?;
      NoBracketUnchanged(s[1..]);
      assert [s[0]] + s[1..] == s;
    }
  }

  /** `[[inner]]` is replaced by the plain text of `inner`, and the scan goes on after it. */
  lemma LinkReplaced(inner: string, rest: string)
    requires |inner| > 0 && ']' !in inner
    ensures RewriteLinks("[[" + inner + "]]" + rest) == LinkText(inner) + RewriteLinks(rest)
  {
    var s := "[[" + inner + "]]" + rest;
    assert s[2..] == inner + ("]]" + rest);
    TakeUntilConcat(inner, "]]" + rest, ']');
    assert LinkAt(s) == Some((LinkText(inner), |inner| + 4));
    assert s[|inner| + 4..] == rest;
  }

  /** Where no link starts, the first character is copied. */
  lemma Copied(s: string)
    requires |s| > 0 && LinkAt(s).None?
    ensures RewriteLinks(s) == [s[0]] + RewriteLinks(s[1..])
  {
  }

  /** A character other than `[` starts no link and is copied. */
  lemma CopiedChar(c: char, t: string)
    requires c != '['
    ensures RewriteLinks([c] + t) == [c] + RewriteLinks(t)
  {
    var s := [c] + t;
    assert s[0] == c && s[1..] == t;
  }

  /** `[[]]` has an empty body and stays as it is. */
  lemma EmptyLinkKept(rest: string)
    ensures RewriteLinks("[[]]" + rest) == "[[]]" + RewriteLinks(rest)
  {
    var s2 := [']'] + ([']'] + rest);
    CopiedChar(']', [']'] + rest);
    CopiedChar(']', rest);
    EmptyLinkStart(s2);
    Cons4('[', '[', ']', ']', rest);
    Cons4('[', '[', ']', ']', RewriteLinks(rest));
  }

  /** `[[` followed by `]` starts no link, and neither does `[` followed by `]`. */
  lemma EmptyLinkStart(s2: string)
    requires |s2| > 0 && s2[0] == ']'
    ensures RewriteLinks(['['] + (['['] + s2)) == ['['] + (['['] + RewriteLinks(s2))
  {
    var s1 := ['['] + s2;
    assert s1[1] == ']' && s1[1..] == s2;
    Copied(s1);
    var s0 := ['['] + s1;
    assert s0[2..] == s2 && s0[1..] == s1;
    TakeUntilConcat("", s2, ']');
    assert "" + s2 == s2;
    Copied(s0);
  }

  lemma Cons4(a: char, b: char, c: char, d: char, t: string)
    ensures [a] + ([b] + ([c] + ([d] + t))) == [a, b, c, d] + t
  {
  }

  /** A prefix without `[` is copied through and does not affect how the rest is rewritten. */
  lemma {:induction false} RewriteLinksAppend(a: string, b: string)
    requires '[' !in a
    ensures RewriteLinks(a + b) == a + RewriteLinks(b)
    decreases |a|
  {
    if |a| > 0 {
      var c, t := a[0], a[1..];
      assert c in a;
      assert a == [c] + t;
      assert a + b == [c] + (t + b);
      CopiedChar(c, t + b);
      RewriteLinksAppend(t, b);
      assert [c] + (t + RewriteLinks(b)) == a + RewriteLinks(b);
    } else {
      assert a + b == b;
    }
  }

  // ---------------------------------------------------------------------
  // The tree pass
  // ---------------------------------------------------------------------

  /** A node of the Markdown tree: its type (`text`, `inlineCode`, `code`, `html`, …) and its literal value. */
  datatype Node = Node(kind: string, value: string)

  /** What the pass makes of a text node's value: comments go first, then links. */
  function NormalizeText(s: string): (r: string)
    ensures |r| <= |s|
  {
    RewriteLinks(StripComments(s))
  }

  /**
   * The first traversal's work on one node: only a text node changes, it
   * never grows, and one without `%%` is left as it is.
   */
  function StripNode(n: Node): (r: Node)
    ensures r.kind == n.kind
    ensures n.kind != "text" ==> r == n
    ensures n.kind == "text" ==> r.value == StripComments(n.value)
    ensures |r.value| <= |n.value|
    ensures NoMarker(n.value) ==> r == n
  {
    if n.kind == "text" then
      if NoMarker(n.value) then (NoMarkerUnchanged(n.value); n)
      else Node(n.kind, StripComments(n.value))
    else n
  }

  /**
   * The second traversal's work on one node: only a text node changes, it
   * never grows, and one without `]` is left as it is.
   */
  function LinkNode(n: Node): (r: Node)
    ensures r.kind == n.kind
    ensures n.kind != "text" ==> r == n
    ensures n.kind == "text" ==> r.value == RewriteLinks(n.value)
    ensures |r.value| <= |n.value|
    ensures ']' !in n.value ==> r == n
  {
    if n.kind == "text" then
      if ']' !in n.value then (NoBracketUnchanged(n.value); n)
      else Node(n.kind, RewriteLinks(n.value))
    else n
  }

  /** The whole pass on one node: only text nodes change. */
  function NormalizeNode(n: Node): (r: Node)
    ensures r.kind == n.kind
    ensures n.kind != "text" ==> r == n
    ensures n.kind == "text" ==> r.value == NormalizeText(n.value)
  {
    LinkNode(StripNode(n))
  }

  /**
   * The pass over the tree, whose nodes are given in visiting order: the
   * first traversal deletes comments in every text node, the second
   * rewrites links in every text node; other nodes are not touched.
   */
  method RemoveObsidianSyntax(nodes: array<Node>)
    modifies nodes
    ensures forall i :: 0 <= i < nodes.Length ==> nodes[i] == NormalizeNode(old(nodes[i]))
  {
    ghost var orig := nodes[..];
    for i := 0 to nodes.Length
      invariant forall j :: 0 <= j < i ==> nodes[j] == StripNode(orig[j])
      invariant forall j :: i <= j < nodes.Length ==> nodes[j] == orig[j]
    {
      nodes[i] := StripNode(nodes[i]);
    }
    for i := 0 to nodes.Length
      invariant forall j :: 0 <= j < i ==> nodes[j] == LinkNode(StripNode(orig[j]))
      invariant forall j :: i <= j < nodes.Length ==> nodes[j] == StripNode(orig[j])
    {
      nodes[i] := LinkNode(nodes[i]);
    }
  }

  /** Comments are gone before links are looked for, so a link inside a comment vanishes with it. */
  lemma CommentsBeforeLinks(a: string, x: string, b: string)
    requires NoMarker(a + "%") && NoMarker(x + "%")
    ensures NormalizeText(a + "%%" + x + "%%" + b) == RewriteLinks(a + StripComments(b))
  {
    CommentRemoved(a, x, b);
  }

  lemma LinkInsideCommentVanishes()
    ensures NormalizeText("%%[[Secret]]%%") == ""
  {
    NoPercentNoMarkerAfter("");
    NoPercentNoMarkerAfter("[[Secret]]");
    CommentRemoved("", "[[Secret]]", "");
    assert "" + "%%" + "[[Secret]]" + "%%" + "" == "%%[[Secret]]%%";
  }

  lemma CommentExample()
    ensures StripComments("a %% drop %% b") == "a  b"
  {
    NoPercentNoMarkerAfter("a ");
    NoPercentNoMarkerAfter(" drop ");
    CommentRemoved("a ", " drop ", " b");
    assert "a " + "%%" + " drop " + "%%" + " b" == "a %% drop %% b";
    NoPercentNoMarker(" b");
    NoMarkerUnchanged(" b");
  }

  /** A `%` followed by a blank, between texts without `%`, makes no `%%`. */
  lemma PercentThenSpace(a: string, b: string)
    requires '%' !in a && '%' !in b
    ensures NoMarker(a + "% " + b + "%")
  {
    var t := a + "% " + b + "%";
    forall i | 0 <= i < |t| ensures !MarkerAt(t, i) {
      if i < |a| {
        assert t[i] == a[i] && a[i] in a;
      } else if i > |a| + 1 && i + 1 < |t| {
        assert t[i] == b[i - |a| - 2] && b[i - |a| - 2] in b;
      }
    }
  }

  /** A lone `%` inside a comment does not end it. */
  lemma PercentInsideComment(s: string)
    requires s == "a %%50% off%% b"
    ensures StripComments(s) == "a  b"
  {
    NoPercentNoMarkerAfter("a ");
    PercentThenSpace("50", "off");
    assert s == "a " + "%%" + ("50" + "% " + "off") + "%%" + " b";
    CommentRemoved("a ", "50" + "% " + "off", " b");
    NoPercentNoMarker(" b");
    NoMarkerUnchanged(" b");
  }

}
