/**
 * The post dialog: it shows the title, the categories joined by `", "` and
 * the draft toggle, keeps what the user types in its fields, and hands
 * those fields on when confirmed. The category text is read back by
 * splitting on `,`, trimming each piece and dropping empty pieces.
 */
module PostModal {
  import opened Text
  import opened Values
  import opened Types

  /** A category as the dialog produces it: non-empty, trimmed, without a comma. */
  predicate IsCleanCategory(c: string)
  {
    c != "" && IsTrimmed(c) && ',' !in c
  }

  lemma TrimHasNo(s: string, x: char)
    requires x !in s
    ensures x !in Trim(s)
  {
    var t := TrimStart(s);
    assert t == s[|s| - |t|..];
    assert x !in t;
    var r := TrimEnd(t);
    assert r == t[..|r|];
  }

  /** Each piece trimmed, the empty ones dropped, in order. */
  function TrimNonEmpty(pieces: seq<string>): (r: seq<string>)
    requires forall i :: 0 <= i < |pieces| ==> ',' !in pieces[i]
    ensures forall i :: 0 <= i < |r| ==> IsCleanCategory(r[i])
    ensures |r| <= |pieces|
  {
    if |pieces| == 0 then []
    else
      var t := Trim(pieces[0]);
      TrimHasNo(pieces[0], ',');
      var rest := TrimNonEmpty(pieces[1..]);
      if t != "" then
        assert IsCleanCategory(t);
        var r := [t] + rest;
        assert forall i :: 0 < i < |r| ==> r[i] == rest[i - 1];
        r
      else rest
  }

  /** `value.split(',').map(c => c.trim()).filter(c => c.length > 0)`. */
  function ParseCategoryList(text: string): (r: seq<string>)
    ensures forall i :: 0 <= i < |r| ==> IsCleanCategory(r[i])
  {
    TrimNonEmpty(Split(text, ','))
  }

  /** `categories.join(', ')`, the text the categories field shows: for strings, the strings joined with a comma and a space. */
  function CategoriesText(categories: seq<Value>): (r: string)
    ensures forall cats :: categories == Strs(cats) ==> r == Join(cats, ", ")
  {
    JoinValues(categories, ", ")
  }

  lemma SpacesHaveNoComma(p: string)
    requires AllSpaces(p)
    ensures ',' !in p
  {
    forall i | 0 <= i < |p| ensures p[i] != ',' { assert IsSpace(p[i]); }
  }

  /** Blanks alone give no category. */
  lemma ParseBlanks(p: string)
    requires AllSpaces(p)
    ensures ParseCategoryList(p) == []
  {
    SpacesHaveNoComma(p);
    SplitNone(p, ',');
    TrimPadded(p, "", "");
    assert p + "" + "" == p;
  }

  /** Blanks and one clean category give that category. */
  lemma ParseLast(p: string, c: string)
    requires AllSpaces(p) && IsCleanCategory(c)
    ensures ParseCategoryList(p + c) == [c]
  {
    SpacesHaveNoComma(p);
    SplitNone(p + c, ',');
    TrimPadded(p, c, "");
    assert p + c + "" == p + c;
  }

  /** Blanks, a clean category and a comma: the category, then whatever the rest reads as. */
  lemma ParseFirst(p: string, c: string, rest: string)
    requires AllSpaces(p) && IsCleanCategory(c)
    ensures ParseCategoryList(p + c + "," + rest) == [c] + ParseCategoryList(rest)
  {
    SpacesHaveNoComma(p);
    SplitCons(p + c, ',', rest);
    TrimPadded(p, c, "");
    assert p + c + "" == p + c;
  }

  /**
   * Reading back the joined text, after any leading blanks, gives the
   * categories again when each is already clean.
   */
  lemma {:induction false} ParseJoined(p: string, cats: seq<string>)
    requires AllSpaces(p)
    requires forall i :: 0 <= i < |cats| ==> IsCleanCategory(cats[i])
    ensures ParseCategoryList(p + Join(cats, ", ")) == cats
    decreases |cats|
  {
    if |cats| == 0 {
      assert p + Join(cats, ", ") == p;
      ParseBlanks(p);
    } else if |cats| == 1 {
      assert p + Join(cats, ", ") == p + cats[0];
      ParseLast(p, cats[0]);
    } else {
      var c := cats[0];
      var rest := " " + Join(cats[1..], ", ");
      assert p + Join(cats, ", ") == p + c + "," + rest;
      ParseFirst(p, c, rest);
      assert AllSpaces(" ");
      ParseJoined(" ", cats[1..]);
      assert [c] + cats[1..] == cats;
    }
  }

  /** Showing clean categories and reading the text back gives the same list. */
  lemma DisplayRoundTrip(cats: seq<string>)
    requires forall i :: 0 <= i < |cats| ==> IsCleanCategory(cats[i])
    ensures ParseCategoryList(CategoriesText(Strs(cats))) == cats
  {
    assert CategoriesText(Strs(cats)) == Join(cats, ", ");
    ParseJoined("", cats);
    assert "" + Join(cats, ", ") == Join(cats, ", ");
  }

  /** Parsing is idempotent: what it produces shows and reads back unchanged. */
  lemma ParseIdempotent(text: string)
    ensures ParseCategoryList(CategoriesText(Strs(ParseCategoryList(text)))) == ParseCategoryList(text)
  {
    DisplayRoundTrip(ParseCategoryList(text));
  }

  /** The dialog and the fields its text boxes and toggle write to. */
  class PostModal {
    var title: Value
    var categories: seq<Value>
    var isDraft: bool
    const isUpdate: bool

    constructor(title: Value, categories: seq<Value>, isDraft: bool, isUpdate: bool)
      ensures this.title == title && this.categories == categories
      ensures this.isDraft == isDraft && this.isUpdate == isUpdate
    {
      this.title := title;
      this.categories := categories;
      this.isDraft := isDraft;
      this.isUpdate := isUpdate;
    }

    /** The title box changed. */
    method EditTitle(value: string)
      modifies this
      ensures title == Str(value)
      ensures categories == old(categories) && isDraft == old(isDraft)
    {
      title := Str(value);
    }

    /** The categories box changed. */
    method EditCategories(text: string)
      modifies this
      ensures categories == Strs(ParseCategoryList(text))
      ensures title == old(title) && isDraft == old(isDraft)
    {
      categories := Strs(ParseCategoryList(text));
    }

    /** The draft toggle changed. */
    method ToggleDraft(value: bool)
      modifies this
      ensures isDraft == value
      ensures title == old(title) && categories == old(categories)
    {
      isDraft := value;
    }

    /** The confirm button: the current fields, as they are. */
    method Confirm() returns (options: PostOptions)
      ensures options.title == title && options.categories == categories && options.isDraft == isDraft
    {
      options := PostOptions(title, categories, isDraft);
    }
  }

  /** Confirming without editing passes on exactly the values the dialog was opened with. */
  method ConfirmUnedited(title: Value, categories: seq<Value>, isDraft: bool, isUpdate: bool)
    returns (options: PostOptions)
    ensures options == PostOptions(title, categories, isDraft)
  {
    var m := new PostModal(title, categories, isDraft, isUpdate);
    options := m.Confirm();
  }

  /**
   * Re-typing the shown category text unchanged keeps the categories, once
   * they are clean strings.
   */
  method RetypeCategories(cats: seq<string>, title: Value, isDraft: bool)
    returns (options: PostOptions)
    requires forall i :: 0 <= i < |cats| ==> IsCleanCategory(cats[i])
    ensures options == PostOptions(title, Strs(cats), isDraft)
  {
    var m := new PostModal(title, Strs(cats), isDraft, false);
    m.EditCategories(CategoriesText(m.categories));
    DisplayRoundTrip(cats);
    options := m.Confirm();
  }
}
