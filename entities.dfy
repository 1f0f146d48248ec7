/**
 * The party annotation the `hcourt` spider reads out of a paragraph of a
 * case page: the first parenthesised group of the paragraph's text, its
 * parentheses removed, split on `-`, each part stripped; the last part is
 * the entity name and, when there are two or more parts, the first is the
 * entity class.
 */
module Entities {
  import opened Wrappers
  import opened Strings

  /**
   * Python's `re` finds `\(.*?\)` at offset `i` and the match ends at `j`:
   * `s[i]` opens, `s[j]` is the first `)` after it, and `.` (which does not
   * match a newline) covers everything in between.
   */
  predicate MatchAt(s: string, i: int, j: int) {
    0 <= i < j < |s| && s[i] == '(' && s[j] == ')' && ')' !in s[i + 1..j] && '\n' !in s[i + 1..j]
  }

  /** A match at a given offset ends at one place only (the pattern is lazy). */
  lemma MatchEndUnique(s: string, i: int, j: int, j': int)
    requires MatchAt(s, i, j) && MatchAt(s, i, j')
    ensures j == j'
  {
    NoCloseInside(s, i, j);
    NoCloseInside(s, i, j');
  }

  /** No `)` lies strictly between the ends of a match. */
  lemma NoCloseInside(s: string, i: int, j: int)
    requires MatchAt(s, i, j)
    ensures forall m :: i < m < j ==> s[m] != ')'
  {
    forall m | i < m < j ensures s[m] != ')' {
      assert s[i + 1..j][m - i - 1] == s[m];
    }
  }

  /** The first `)` at or after `j` that no newline precedes, scanning from `j`. */
  function CloseFrom(s: string, j: nat): (k: Option<nat>)
    requires j <= |s|
    decreases |s| - j
    ensures k.Some? ==>
      j <= k.value < |s| && s[k.value] == ')' && ')' !in s[j..k.value] && '\n' !in s[j..k.value]
    ensures k.None? ==> forall m :: j <= m < |s| && s[m] == ')' ==> '\n' in s[j..m]
  {
    if j == |s| then None
    else if s[j] == ')' then Some(j)
    else if s[j] == '\n' then
      assert forall m :: j < m < |s| ==> s[j..m][0] == '\n';
      None
    else
      var k := CloseFrom(s, j + 1);
      assert forall m :: j < m <= |s| ==> s[j..m] == [s[j]] + s[j + 1..m];
      k
  }

  /** The first match of `\(.*?\)` starting at or after `i`, as its two offsets. */
  function SearchFrom(s: string, i: nat): (m: Option<(nat, nat)>)
    requires i <= |s|
    decreases |s| - i
    ensures m.Some? ==> i <= m.value.0 && MatchAt(s, m.value.0, m.value.1)
    ensures m.Some? ==> forall i', j' :: i <= i' && MatchAt(s, i', j') ==> m.value.0 <= i'
    ensures m.None? ==> forall i', j' :: i <= i' ==> !MatchAt(s, i', j')
  {
    if i == |s| then None
    else if s[i] == '(' then
      match CloseFrom(s, i + 1)
      case Some(k) => Some((i, k))
      case None =>
        var m := SearchFrom(s, i + 1);
        assert forall j' :: !MatchAt(s, i, j');
        m
    else
      SearchFrom(s, i + 1)
  }

  /**
   * `re.findall(r"\(.*?\)", s)[0]`: the earliest match of the lazy pattern,
   * parentheses included, or `None` when `findall` finds nothing.
   */
  function FirstParenGroup(s: string): (g: Option<string>)
    ensures g.None? <==> forall i, j :: !MatchAt(s, i, j)
    ensures g.Some? ==> exists i, j ::
      && MatchAt(s, i, j) && g.value == s[i..j + 1]
      && forall i', j' :: MatchAt(s, i', j') ==> i <= i'
  {
    match SearchFrom(s, 0)
    case None => None
    case Some((i, j)) => Some(s[i..j + 1])
  }

  /**
   * The first group of `pre + "(" + inner + ")" + post` when `pre` opens no
   * group and `inner` neither closes one nor holds a newline.
   */
  lemma FirstGroupOf(pre: string, inner: string, post: string)
    requires '(' !in pre && ')' !in inner && '\n' !in inner
    ensures FirstParenGroup(pre + "(" + inner + ")" + post) == Some("(" + inner + ")")
  {
    var s := pre + "(" + inner + ")" + post;
    var i, j := |pre|, |pre| + |inner| + 1;
    assert s[i + 1..j] == inner;
    assert MatchAt(s, i, j);
    assert s[i..j + 1] == "(" + inner + ")";
    var g := FirstParenGroup(s);
    var i0, j0 :| MatchAt(s, i0, j0) && g.value == s[i0..j0 + 1] && forall i', j' :: MatchAt(s, i', j') ==> i0 <= i';
    assert forall k :: 0 <= k < |pre| ==> s[k] == pre[k] && s[k] != '(';
    assert i0 == i;
    MatchEndUnique(s, i, j, j0);
  }

  /** Python's `[x.strip() for x in group.replace("(", "").replace(")", "").split("-")]`. */
  function EntityParts(group: string): (parts: seq<string>)
    ensures |parts| == Count(group, '-') + 1
    ensures forall k :: 0 <= k < |parts| ==>
      && '-' !in parts[k] && '(' !in parts[k] && ')' !in parts[k] && Stripped(parts[k])
  {
    var bare := Delete(Delete(group, '('), ')');
    var pieces := Split(bare, '-');
    assert Count(bare, '-') == Count(group, '-');
    SplitCount(bare, '-');
    SplitAvoids(bare, '-', '(');
    SplitAvoids(bare, '-', ')');
    seq(|pieces|, k requires 0 <= k < |pieces| => Strip(pieces[k]))
  }

  /** A character absent from a string is absent from every part of its split. */
  lemma {:induction false} SplitAvoids(s: string, sep: char, c: char)
    requires c !in s
    ensures forall k :: 0 <= k < |Split(s, sep)| ==> c !in Split(s, sep)[k]
  {
    if s != [] {
      SplitAvoids(s[1..], sep, c);
      assert s[0] != c;
    }
  }

  /** The two annotation fields of a document request. */
  datatype Entity = Entity(entityName: string, entityClass: string)

  /**
   * `entity_name` and `entity_class` as `parse_case` leaves them: both empty
   * when the paragraph has no parenthesised group; otherwise the last part,
   * and the first part only when there are at least two.
   */
  function ExtractEntity(text: string): (e: Entity)
    ensures FirstParenGroup(text).None? ==> e == Entity("", "")
    ensures '-' !in e.entityName && '(' !in e.entityName && ')' !in e.entityName && Stripped(e.entityName)
    ensures '-' !in e.entityClass && '(' !in e.entityClass && ')' !in e.entityClass && Stripped(e.entityClass)
    ensures e.entityClass != [] ==> exists g :: FirstParenGroup(text) == Some(g) && '-' in g
  {
    match FirstParenGroup(text)
    case None => Entity("", "")
    case Some(g) =>
      var parts := EntityParts(g);
      Entity(parts[|parts| - 1], if |parts| > 1 then parts[0] else "")
  }

  /**
   * The split on a group whose inside is the segments joined by `-`: the
   * name is the last segment and the class the first when there are two or
   * more segments, each with any `(` removed and stripped; every middle
   * segment is dropped.
   */
  lemma EntityFromSegments(text: string, segments: seq<string>)
    requires |segments| >= 1
    requires forall k :: 0 <= k < |segments| ==> '-' !in segments[k] && ')' !in segments[k]
    requires FirstParenGroup(text) == Some("(" + Join(segments, "-") + ")")
    ensures ExtractEntity(text).entityName == Strip(Delete(segments[|segments| - 1], '('))
    ensures ExtractEntity(text).entityClass == if |segments| > 1 then Strip(Delete(segments[0], '(')) else ""
  {
    var parts := EntityParts("(" + Join(segments, "-") + ")");
    PartsOfGroup(segments);
    assert ExtractEntity(text) == Entity(parts[|parts| - 1], if |parts| > 1 then parts[0] else "");
  }

  /**
   * The parts of a group whose inside is segments joined by `-` are those
   * segments, each with every `(` removed (a match of the lazy pattern may
   * hold further `(`) and then stripped.
   */
  lemma PartsOfGroup(segments: seq<string>)
    requires |segments| >= 1
    requires forall k :: 0 <= k < |segments| ==> '-' !in segments[k] && ')' !in segments[k]
    ensures var parts := EntityParts("(" + Join(segments, "-") + ")");
      |parts| == |segments| && forall k :: 0 <= k < |parts| ==> parts[k] == Strip(Delete(segments[k], '('))
  {
    var group := "(" + Join(segments, "-") + ")";
    var bare := DeleteEach(segments, '(');
    BareSegments(segments);
    DashFree(segments);
    SplitJoin(bare, '-');
    assert Split(Delete(Delete(group, '('), ')'), '-') == bare;
  }

  /** Removing the parentheses from such a group leaves the segments, each without `(`, joined by `-`. */
  lemma BareSegments(segments: seq<string>)
    requires forall k :: 0 <= k < |segments| ==> '-' !in segments[k] && ')' !in segments[k]
    ensures Delete(Delete("(" + Join(segments, "-") + ")", '('), ')') == Join(DeleteEach(segments, '('), "-")
  {
    JoinAvoids(segments, "-", ')');
    DeleteJoin(segments, "-", '(');
    BareGroupOf(Join(segments, "-"), Join(DeleteEach(segments, '('), "-"));
  }

  /** Removing `(` from dash-free segments leaves them dash-free. */
  lemma DashFree(segments: seq<string>)
    requires forall k :: 0 <= k < |segments| ==> '-' !in segments[k]
    ensures forall k :: 0 <= k < |segments| ==> '-' !in DeleteEach(segments, '(')[k]
  {
  }

  /** Every string of `parts` with `c` removed. */
  function DeleteEach(parts: seq<string>, c: char): seq<string> {
    seq(|parts|, k requires 0 <= k < |parts| => Delete(parts[k], c))
  }

  /** Removing a character the separator lacks from a join removes it from each part. */
  lemma {:induction false} DeleteJoin(parts: seq<string>, sep: string, c: char)
    requires c !in sep
    ensures Delete(Join(parts, sep), c) == Join(DeleteEach(parts, c), sep)
  {
    if |parts| > 1 {
      var rest := parts[1..];
      DeleteJoin(rest, sep, c);
      DeleteAppend(parts[0] + sep, Join(rest, sep), c);
      DeleteAppend(parts[0], sep, c);
      DeleteAbsent(sep, c);
      assert DeleteEach(parts, c)[1..] == DeleteEach(rest, c);
    }
  }

  /** `BareGroup` for an inside whose `(`-free form is already known. */
  lemma BareGroupOf(inner: string, bare: string)
    requires ')' !in inner && Delete(inner, '(') == bare
    ensures Delete(Delete("(" + inner + ")", '('), ')') == bare
  {
    BareGroup(inner);
  }

  /** Removing the parentheses from a group whose inside closes none leaves the inside without its `(`. */
  lemma BareGroup(inner: string)
    requires ')' !in inner
    ensures Delete(Delete("(" + inner + ")", '('), ')') == Delete(inner, '(')
  {
    OpenRemoved(inner);
    CloseRemoved(Delete(inner, '('));
  }

  /** `replace("(", "")` on a group leaves its inside without `(`, then the `)`. */
  lemma OpenRemoved(inner: string)
    ensures Delete("(" + inner + ")", '(') == Delete(inner, '(') + ")"
  {
    var t := inner + ")";
    assert "(" + inner + ")" == "(" + t;
    DeleteAppend("(", t, '(');
    assert Delete("(", '(') == [];
    DeleteAppend(inner, ")", '(');
    assert Delete(")", '(') == ")";
  }

  /** `replace(")", "")` on an inside with no `)` followed by the `)` leaves the inside. */
  lemma CloseRemoved(inner: string)
    requires ')' !in inner
    ensures Delete(inner + ")", ')') == inner
  {
    DeleteAppend(inner, ")", ')');
    DeleteAbsent(inner, ')');
    assert Delete(")", ')') == [];
  }

  /** A join contains a character only when a part or the separator does. */
  lemma {:induction false} JoinAvoids(parts: seq<string>, sep: string, c: char)
    requires c !in sep
    requires forall k :: 0 <= k < |parts| ==> c !in parts[k]
    ensures c !in Join(parts, sep)
  {
    if |parts| > 1 {
      JoinAvoids(parts[1..], sep, c);
    }
  }

  /**
   * The annotation of a text whose first group is the segments joined by
   * `-`, wherever that group sits after a prefix that opens no group.
   */
  lemma EntityOfText(text: string, pre: string, segments: seq<string>, post: string)
    requires '(' !in pre
    requires |segments| >= 1
    requires forall k :: 0 <= k < |segments| ==> '-' !in segments[k] && ')' !in segments[k] && '\n' !in segments[k]
    requires text == pre + "(" + Join(segments, "-") + ")" + post
    ensures ExtractEntity(text) ==
      Entity(Strip(Delete(segments[|segments| - 1], '(')),
             if |segments| > 1 then Strip(Delete(segments[0], '(')) else "")
  {
    var inner := Join(segments, "-");
    JoinAvoids(segments, "-", ')');
    JoinAvoids(segments, "-", '\n');
    FirstGroupOf(pre, inner, post);
    EntityFromSegments(text, segments);
  }

  /** The text of a two-segment group, as the padded segments joined by `-`. */
  lemma PairGroupText(cls: string, name: string)
    ensures "(" + cls + " - " + name + ")"
      == "" + "(" + Join([Pad(cls, false, true), Pad(name, true, false)], "-") + ")" + ""
  {
    var segments := [Pad(cls, false, true), Pad(name, true, false)];
    assert segments[1..] == [Pad(name, true, false)];
    assert Pad(cls, false, true) == cls + " " && Pad(name, true, false) == " " + name;
    assert Join(segments, "-") == cls + " - " + name;
  }

  /** A group `(class - name)`: the class and the name, e.g. `(Division - Acme Corp)`. */
  lemma ClassAndName(cls: string, name: string)
    requires Delimiterless(cls) && Delimiterless(name)
    ensures ExtractEntity("(" + cls + " - " + name + ")") == Entity(name, cls)
  {
    var segments := [Pad(cls, false, true), Pad(name, true, false)];
    PairGroupText(cls, name);
    PaddedSegment(cls, false, true);
    PaddedSegment(name, true, false);
    EntityOfText("(" + cls + " - " + name + ")", "", segments, "");
  }

  /** The text of a three-segment group, as the padded segments joined by `-`. */
  lemma TripleGroupText(first: string, middle: string, last: string)
    ensures "(" + first + " - " + middle + " - " + last + ")"
      == "" + "(" + Join([Pad(first, false, true), Pad(middle, true, true), Pad(last, true, false)], "-") + ")" + ""
  {
    var segments := [Pad(first, false, true), Pad(middle, true, true), Pad(last, true, false)];
    assert segments[1..][1..] == [Pad(last, true, false)];
    assert Pad(first, false, true) == first + " " && Pad(last, true, false) == " " + last;
    assert Pad(middle, true, true) == " " + middle + " ";
    assert Join(segments[1..], "-") == " " + middle + " " + "-" + " " + last;
    assert Join(segments, "-") == first + " - " + middle + " - " + last;
  }

  /** A group `(first - middle - last)`: the middle segment is dropped. */
  lemma MiddleSegmentDropped(first: string, middle: string, last: string)
    requires Delimiterless(first) && Delimiterless(middle) && Delimiterless(last)
    ensures ExtractEntity("(" + first + " - " + middle + " - " + last + ")") == Entity(last, first)
  {
    var segments := [Pad(first, false, true), Pad(middle, true, true), Pad(last, true, false)];
    TripleGroupText(first, middle, last);
    PaddedSegment(first, false, true);
    PaddedSegment(middle, true, true);
    PaddedSegment(last, true, false);
    EntityOfText("(" + first + " - " + middle + " - " + last + ")", "", segments, "");
  }

  /** The text of a one-segment group. */
  lemma SingleGroupText(name: string)
    ensures "(" + name + ")" == "" + "(" + Join([Pad(name, false, false)], "-") + ")" + ""
  {
    assert Pad(name, false, false) == name;
  }

  /** A group `(name)` without a dash: the name and no class, e.g. `(Acme Corp)`. */
  lemma NameOnly(name: string)
    requires Delimiterless(name)
    ensures ExtractEntity("(" + name + ")") == Entity(name, "")
  {
    SingleGroupText(name);
    PaddedSegment(name, false, false);
    EntityOfText("(" + name + ")", "", [Pad(name, false, false)], "");
  }

  /** The text of a two-segment group whose first segment opens with a stray `(`. */
  lemma StrayOpenGroupText(cls: string, name: string)
    ensures "((" + cls + " - " + name + ")"
      == "" + "(" + Join(["(" + Pad(cls, false, true), Pad(name, true, false)], "-") + ")" + ""
  {
    var segments := ["(" + Pad(cls, false, true), Pad(name, true, false)];
    assert segments[1..] == [Pad(name, true, false)];
    assert Pad(cls, false, true) == cls + " " && Pad(name, true, false) == " " + name;
    assert Join(segments, "-") == "(" + cls + " - " + name;
  }

  /**
   * A group with a stray `(` inside, `((class - name)`: `replace` removes
   * every `(`, so the class and the name come out as for `(class - name)`.
   */
  lemma StrayOpenDropped(cls: string, name: string)
    requires Delimiterless(cls) && Delimiterless(name)
    ensures ExtractEntity("((" + cls + " - " + name + ")") == Entity(name, cls)
  {
    var first := "(" + Pad(cls, false, true);
    StrayOpenGroupText(cls, name);
    PaddedSegment(cls, false, true);
    PaddedSegment(name, true, false);
    DeleteAppend("(", Pad(cls, false, true), '(');
    assert Delete("(", '(') == [];
    assert Delete(first, '(') == Delete(Pad(cls, false, true), '(');
    EntityOfText("((" + cls + " - " + name + ")", "", [first, Pad(name, true, false)], "");
  }

  /** One space before and/or after delimiter-free text adds no delimiter, and `strip()` removes it. */
  lemma PaddedSegment(core: string, before: bool, after: bool)
    requires Delimiterless(core)
    ensures var seg := Pad(core, before, after);
      '-' !in seg && ')' !in seg && '\n' !in seg && Strip(Delete(seg, '(')) == core
  {
    var pre: string := if before then " " else "";
    var post: string := if after then " " else "";
    PadStrip(pre, core, post);
    PadAvoids(pre, core, post);
    DeleteAbsent(pre + core + post, '(');
  }

  /** `strip()` removes at most one space on either side of text with no whitespace at its ends. */
  lemma PadStrip(pre: string, core: string, post: string)
    requires pre == [] || pre == " "
    requires post == [] || post == " "
    requires Stripped(core)
    ensures Strip(pre + core + post) == core
  {
    assert AllSpace(pre) && AllSpace(post);
    StripPadded(pre, core, post);
  }

  /** Spaces around text add none of the group delimiters. */
  lemma PadAvoids(pre: string, core: string, post: string)
    requires pre == [] || pre == " "
    requires post == [] || post == " "
    requires '-' !in core && '(' !in core && ')' !in core && '\n' !in core
    ensures var seg := pre + core + post;
      '-' !in seg && '(' !in seg && ')' !in seg && '\n' !in seg
  {
  }

  /** `core` with one space before it and/or after it, as a segment of a written-out group. */
  function Pad(core: string, before: bool, after: bool): string {
    (if before then " " else "") + core + (if after then " " else "")
  }

  /** A text without `(` has neither field. */
  lemma NoGroupNoEntity(text: string)
    requires '(' !in text
    ensures ExtractEntity(text) == Entity("", "")
  {
    assert forall i :: 0 <= i < |text| ==> text[i] != '(';
  }

  /** Text without any of the group's delimiters, a newline, or whitespace at either end. */
  predicate Delimiterless(s: string) {
    '-' !in s && '(' !in s && ')' !in s && '\n' !in s && Stripped(s)
  }
}
