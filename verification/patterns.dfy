/**
 `PatternListValue`: a list setting of wildcard patterns, its edits, and
 the wildcard match. A pattern is turned into the regular expression
 `^…$` in which `*` stands for `.*`, `?` for `.` and every other character
 for itself; the match below is that expression's meaning, written out.
 */
module Patterns {
  import opened Wrappers
  import opened Settings

  /** A pattern list setting: the value and the default are lists of strings. */
  type PatternList = Setting<seq<string>>

  /** `PatternListValue()` and `PatternListValue(defaultValue)`. */
  function NewPatternList(d: seq<string>): (r: PatternList)
    ensures r.value == d && r.default == d && r.changed == 0
  {
    NewSetting(d)
  }

  /**
   `char.IsWhiteSpace`: the space, line and paragraph separators of Unicode
   and the controls U+0009 to U+000D and U+0085.
   */
  predicate IsWhiteSpace(c: char) {
    || '\U{9}' <= c <= '\U{D}' || c == ' ' || c == '\U{85}' || c == '\U{A0}' || c == '\U{1680}'
    || '\U{2000}' <= c <= '\U{200A}' || c == '\U{2028}' || c == '\U{2029}' || c == '\U{202F}'
    || c == '\U{205F}' || c == '\U{3000}'
  }

  /** `string.IsNullOrWhiteSpace`; `None` stands for `null`. */
  predicate IsNullOrWhiteSpace(s: Option<string>) {
    s.None? || forall i | 0 <= i < |s.value| :: IsWhiteSpace(s.value[i])
  }

  /**
   The list edits reassign the list to itself, which the setter sees as no
   change, so as written they fire no `Changed` event. Here the default is a
   value of its own and stays as it was: that is the corrected list. In the
   source the default is the same list object as the value and follows every
   edit; `SharedList` below models that. A change event for list edits is
   not part of this model.
   */
  function Edit(s: PatternList, ps: seq<string>): (r: PatternList)
    ensures r.value == ps && r.default == s.default && r.changed == s.changed
  {
    s.(value := ps)
  }

  /** `Add`: a null, empty or blank item is ignored; any other goes at the end. */
  function Add(s: PatternList, item: Option<string>): (r: PatternList)
    ensures IsNullOrWhiteSpace(item) ==> r == s
    ensures !IsNullOrWhiteSpace(item) ==>
      |r.value| == |s.value| + 1 && r.value[..|s.value|] == s.value && r.value[|s.value|] == item.value
    ensures r.default == s.default && r.changed == s.changed
  {
    if IsNullOrWhiteSpace(item) then s else Edit(s, s.value + [item.value])
  }

  /** The position of the first occurrence of `x`. */
  function FirstIndex(ps: seq<string>, x: string): (i: nat)
    requires x in ps
    ensures i < |ps| && ps[i] == x && x !in ps[..i]
  {
    if ps[0] == x then 0
    else
      var j := FirstIndex(ps[1..], x);
      assert ps[..j + 1] == [ps[0]] + ps[1..][..j];
      j + 1
  }

  /** `Remove`: drops the first occurrence of `item` and says whether there was one. */
  function Remove(s: PatternList, item: string): (r: (PatternList, bool))
    ensures r.1 <==> item in s.value
    ensures !r.1 ==> r.0 == s
    ensures r.1 ==> exists i | 0 <= i < |s.value| ::
      && s.value[i] == item && item !in s.value[..i]
      && r.0.value == s.value[..i] + s.value[i + 1..]
    ensures r.1 ==> multiset(r.0.value) + multiset{item} == multiset(s.value)
    ensures r.0.default == s.default && r.0.changed == s.changed
  {
    if item !in s.value then (s, false)
    else
      var i := FirstIndex(s.value, item);
      assert s.value == s.value[..i] + [item] + s.value[i + 1..];
      (Edit(s, s.value[..i] + s.value[i + 1..]), true)
  }

  /** Removing an item that was just added to a list without it gives the list back. */
  lemma AddThenRemove(s: PatternList, x: string)
    requires !IsNullOrWhiteSpace(Some(x)) && x !in s.value
    ensures Remove(Add(s, Some(x)), x) == (s, true)
  {
    var added := Add(s, Some(x));
    assert added.value == s.value + [x];
    var i := FirstIndex(added.value, x);
    assert i == |s.value| by {
      assert forall k | 0 <= k < |s.value| :: added.value[k] == s.value[k] && s.value[k] in s.value;
    }
    assert added.value[..i] + added.value[i + 1..] == s.value;
  }

  datatype ListError = IndexOutOfRange(index: int)

  /** `RemoveAt`: the index must be inside the list, or the call fails. */
  function RemoveAt(s: PatternList, index: int): (r: Result<PatternList, ListError>)
    ensures r.Ok? <==> 0 <= index < |s.value|
    ensures r.Ok? ==> |r.value.value| == |s.value| - 1
    ensures r.Ok? ==> forall k | 0 <= k < |r.value.value| ::
      r.value.value[k] == if k < index then s.value[k] else s.value[k + 1]
    ensures r.Ok? ==> r.value.default == s.default && r.value.changed == s.changed
    ensures r.Err? ==> r.error == IndexOutOfRange(index)
  {
    if 0 <= index < |s.value| then Ok(Edit(s, s.value[..index] + s.value[index + 1..]))
    else Err(IndexOutOfRange(index))
  }

  /** `Clear`. */
  function Clear(s: PatternList): (r: PatternList)
    ensures r.value == [] && r.default == s.default && r.changed == s.changed
  {
    Edit(s, [])
  }

  /** `HasPatterns`. */
  predicate HasPatterns(s: PatternList) {
    |s.value| > 0
  }

  /** Lower case for the ASCII letters; every other character is left as it is. */
  function Lower(c: char): (r: char)
    ensures 'A' <= c <= 'Z' ==> 'a' <= r <= 'z' && r as int - c as int == 32
    ensures !('A' <= c <= 'Z') ==> r == c
  {
    if 'A' <= c <= 'Z' then (c as int + 32) as char else c
  }

  /** Two characters a literal pattern character accepts as equal. */
  predicate SameChar(a: char, b: char, ignoreCase: bool) {
    a == b || (ignoreCase && Lower(a) == Lower(b))
  }

  /**
   The anchored expression matches all of `v`: `*` takes any run of
   characters other than a newline, `?` one such character, any other
   pattern character the same character (up to case when `ignoreCase`).
   */
  predicate WholeMatch(v: string, p: string, ignoreCase: bool)
    decreases |v| + |p|
  {
    if p == [] then v == []
    else if p[0] == '*' then
      || WholeMatch(v, p[1..], ignoreCase)
      || (v != [] && v[0] != '\n' && WholeMatch(v[1..], p, ignoreCase))
    else if p[0] == '?' then v != [] && v[0] != '\n' && WholeMatch(v[1..], p[1..], ignoreCase)
    else v != [] && SameChar(v[0], p[0], ignoreCase) && WholeMatch(v[1..], p[1..], ignoreCase)
  }

  /**
   `MatchesPattern`: an empty pattern matches nothing. Otherwise the
   expression must match the whole value; as `$` also matches just before a
   final newline, a value ending in a newline matches when the rest does.
   */
  predicate MatchesPattern(v: string, p: string, ignoreCase: bool) {
    && p != []
    && (|| WholeMatch(v, p, ignoreCase)
        || (|v| > 0 && v[|v| - 1] == '\n' && WholeMatch(v[..|v| - 1], p, ignoreCase)))
  }

  /** Whether some pattern of `ps` matches `v`, trying them in order. */
  function AnyMatches(v: string, ps: seq<string>, ignoreCase: bool): (r: bool)
    ensures r <==> exists i | 0 <= i < |ps| :: MatchesPattern(v, ps[i], ignoreCase)
  {
    if ps == [] then false
    else if MatchesPattern(v, ps[0], ignoreCase) then true
    else
      var r := AnyMatches(v, ps[1..], ignoreCase);
      assert forall i | 1 <= i < |ps| :: ps[i] == ps[1..][i - 1];
      r
  }

  /**
   `Matches`: a null or empty value matches nothing; any other value matches
   when some pattern of the list does.
   */
  function Matches(s: PatternList, value: Option<string>, ignoreCase: bool := true): (r: bool)
    ensures value.None? || value.value == [] ==> !r
    ensures value.Some? && value.value != [] ==>
      (r <==> exists i | 0 <= i < |s.value| :: MatchesPattern(value.value, s.value[i], ignoreCase))
  {
    if value.None? || value.value == [] then false
    else AnyMatches(value.value, s.value, ignoreCase)
  }

  /** Case is ignored unless asked for: `A*` matches `abc` by default but not with case. */
  lemma DefaultIgnoresCase()
    ensures Matches(NewPatternList(["A*"]), Some("abc"))
    ensures !Matches(NewPatternList(["A*"]), Some("abc"), false)
  {
  }

  /** A list with no patterns, for instance one just cleared, matches nothing. */
  lemma ClearedMatchesNothing(s: PatternList, value: Option<string>, ignoreCase: bool)
    ensures !HasPatterns(Clear(s)) && !Matches(Clear(s), value, ignoreCase)
  {
  }

  /** The characters of `ws`, one piece after another. */
  function Concat(ws: seq<string>): string {
    if ws == [] then [] else ws[0] + Concat(ws[1..])
  }

  /** The piece of the value that pattern character `c` may stand for. */
  predicate Fits(c: char, piece: string, ignoreCase: bool) {
    if c == '*' then '\n' !in piece
    else if c == '?' then |piece| == 1 && piece[0] != '\n'
    else |piece| == 1 && SameChar(piece[0], c, ignoreCase)
  }

  /**
   The wildcard meaning, independently of how the matcher walks: `v` cuts
   into one piece per pattern character, each piece fitting its character.
   */
  ghost predicate Segmentation(v: string, p: string, ws: seq<string>, ignoreCase: bool) {
    && |ws| == |p|
    && Concat(ws) == v
    && forall i | 0 <= i < |p| :: Fits(p[i], ws[i], ignoreCase)
  }

  lemma {:induction false} MatchHasSegmentation(v: string, p: string, ignoreCase: bool)
    requires WholeMatch(v, p, ignoreCase)
    ensures exists ws :: Segmentation(v, p, ws, ignoreCase)
    decreases |v| + |p|
  {
    if p == [] {
      assert Segmentation(v, p, [], ignoreCase);
    } else if p[0] == '*' && WholeMatch(v, p[1..], ignoreCase) {
      MatchHasSegmentation(v, p[1..], ignoreCase);
      var ws :| Segmentation(v, p[1..], ws, ignoreCase);
      SegmentationPrepend(v, p, ws, [], ignoreCase);
    } else if p[0] == '*' {
      MatchHasSegmentation(v[1..], p, ignoreCase);
      var ws :| Segmentation(v[1..], p, ws, ignoreCase);
      SegmentationWiden(v, p, ws, ignoreCase);
    } else {
      MatchHasSegmentation(v[1..], p[1..], ignoreCase);
      var ws :| Segmentation(v[1..], p[1..], ws, ignoreCase);
      assert v == [v[0]] + v[1..];
      SegmentationPrepend(v, p, ws, [v[0]], ignoreCase);
    }
  }

  /** A piece for the first pattern character in front of a segmentation of the rest. */
  lemma SegmentationPrepend(v: string, p: string, ws: seq<string>, piece: string, ignoreCase: bool)
    requires p != [] && |piece| <= |v| && v[..|piece|] == piece
    requires Segmentation(v[|piece|..], p[1..], ws, ignoreCase) && Fits(p[0], piece, ignoreCase)
    ensures Segmentation(v, p, [piece] + ws, ignoreCase)
  {
    var ws' := [piece] + ws;
    assert ws'[1..] == ws;
    assert v == piece + v[|piece|..];
    assert forall i | 1 <= i < |p| :: ws'[i] == ws[i - 1] && p[i] == p[1..][i - 1];
  }

  /** A `*` in front takes one more character of the value. */
  lemma SegmentationWiden(v: string, p: string, ws: seq<string>, ignoreCase: bool)
    requires p != [] && p[0] == '*' && v != [] && v[0] != '\n'
    requires Segmentation(v[1..], p, ws, ignoreCase)
    ensures Segmentation(v, p, [[v[0]] + ws[0]] + ws[1..], ignoreCase)
  {
    var ws' := [[v[0]] + ws[0]] + ws[1..];
    assert ws'[1..] == ws[1..];
    assert Concat(ws) == ws[0] + Concat(ws[1..]);
    assert Concat(ws') == [v[0]] + v[1..];
    assert Fits(p[0], ws[0], ignoreCase);
    assert forall i | 1 <= i < |p| :: ws'[i] == ws[i];
  }

  lemma {:induction false} SegmentationMatches(v: string, p: string, ws: seq<string>, ignoreCase: bool)
    requires Segmentation(v, p, ws, ignoreCase)
    ensures WholeMatch(v, p, ignoreCase)
    decreases |v| + |p|
  {
    if p != [] {
      assert Fits(p[0], ws[0], ignoreCase);
      assert v == ws[0] + Concat(ws[1..]);
      assert forall i | 1 <= i < |p| :: ws[1..][i - 1] == ws[i] && p[1..][i - 1] == p[i];
      if p[0] == '*' && ws[0] == [] {
        assert Segmentation(v, p[1..], ws[1..], ignoreCase);
        SegmentationMatches(v, p[1..], ws[1..], ignoreCase);
      } else if p[0] == '*' {
        var ws' := [ws[0][1..]] + ws[1..];
        assert ws'[1..] == ws[1..];
        assert ws[0] == [ws[0][0]] + ws[0][1..];
        assert v[0] == ws[0][0] && v[0] in ws[0];
        assert Concat(ws') == v[1..];
        assert forall i | 1 <= i < |p| :: ws'[i] == ws[i];
        assert Segmentation(v[1..], p, ws', ignoreCase);
        SegmentationMatches(v[1..], p, ws', ignoreCase);
      } else {
        assert v[0] == ws[0][0] && v[1..] == Concat(ws[1..]);
        assert Segmentation(v[1..], p[1..], ws[1..], ignoreCase);
        SegmentationMatches(v[1..], p[1..], ws[1..], ignoreCase);
      }
    }
  }

  /** The matcher and the segmentation meaning agree on every value and pattern. */
  lemma WholeMatchIffSegmentation(v: string, p: string, ignoreCase: bool)
    ensures WholeMatch(v, p, ignoreCase) <==> exists ws :: Segmentation(v, p, ws, ignoreCase)
  {
    if WholeMatch(v, p, ignoreCase) {
      MatchHasSegmentation(v, p, ignoreCase);
    }
    if ws :| Segmentation(v, p, ws, ignoreCase) {
      SegmentationMatches(v, p, ws, ignoreCase);
    }
  }

  /** `*` alone matches every non-empty value without a newline. */
  lemma StarMatchesAll(v: string, ignoreCase: bool)
    requires '\n' !in v
    ensures MatchesPattern(v, "*", ignoreCase)
  {
    assert Concat([v]) == v + Concat([]);
    assert Segmentation(v, "*", [v], ignoreCase);
    SegmentationMatches(v, "*", [v], ignoreCase);
  }

  /** On values without a newline, `?` alone matches exactly the one-character values. */
  lemma QuestionMatchesOne(v: string, ignoreCase: bool)
    requires '\n' !in v
    ensures MatchesPattern(v, "?", ignoreCase) <==> |v| == 1
  {
    assert "?"[1..] == [];
    if |v| > 0 {
      assert v[|v| - 1] in v && v[0] in v;
      assert WholeMatch(v, "?", ignoreCase) <==> WholeMatch(v[1..], [], ignoreCase);
    }
  }

  /** A pattern without wildcards, matched with case, matches only itself. */
  lemma {:induction false} LiteralMatchesItself(v: string, p: string)
    requires '*' !in p && '?' !in p
    ensures WholeMatch(v, p, false) <==> v == p
    decreases |p|
  {
    if p != [] {
      if v != [] {
        assert '*' !in p[1..] && '?' !in p[1..];
        LiteralMatchesItself(v[1..], p[1..]);
        assert v == [v[0]] + v[1..] && p == [p[0]] + p[1..];
      }
    }
  }

  /**
   The full pattern match of a literal pattern, matched with case: the value
   is the pattern itself, or the pattern followed by one final newline,
   which `$` lets through.
   */
  lemma LiteralPatternMatches(v: string, p: string)
    requires '*' !in p && '?' !in p
    ensures MatchesPattern(v, p, false) <==> p != [] && (v == p || v == p + "\n")
  {
    LiteralMatchesItself(v, p);
    if |v| > 0 {
      LiteralMatchesItself(v[..|v| - 1], p);
      if v == p + "\n" {
        assert v[..|v| - 1] == p;
      }
    }
  }

  /** An empty pattern never matches, whatever the value. */
  lemma EmptyPatternNeverMatches(v: string, ignoreCase: bool)
    ensures !MatchesPattern(v, "", ignoreCase)
  {
  }

  /**
   The list setting as the source builds it: value and default start out as
   one list object (`shared`), so editing the value edits the default too,
   until the value is replaced by a different object.
   */
  datatype SharedList = SharedList(cell: PatternList, shared: bool)

  function AsWrittenNew(d: seq<string>): (r: SharedList)
    ensures r.cell == NewPatternList(d) && r.shared
  {
    SharedList(NewSetting(d), true)
  }

  /** An edit of the list object itself: seen through the default as well while shared. */
  function AsWrittenEdit(s: SharedList, ps: seq<string>): (r: SharedList)
    ensures r.cell.value == ps && r.shared == s.shared && r.cell.changed == s.cell.changed
    ensures s.shared ==> r.cell.default == ps
    ensures !s.shared ==> r.cell.default == s.cell.default
  {
    SharedList(Setting(ps, if s.shared then ps else s.cell.default, s.cell.changed), s.shared)
  }

  /** `Add` on the shared list. */
  function AsWrittenAdd(s: SharedList, item: Option<string>): (r: SharedList)
    ensures IsNullOrWhiteSpace(item) ==> r == s
    ensures !IsNullOrWhiteSpace(item) ==> r == AsWrittenEdit(s, Add(s.cell, item).value)
  {
    if IsNullOrWhiteSpace(item) then s else AsWrittenEdit(s, s.cell.value + [item.value])
  }

  /** `ResetToDefault` on the shared list: the value is set to the default object. */
  function AsWrittenReset(s: SharedList): (r: SharedList)
    ensures r.cell == ResetToDefault(s.cell) && r.shared == s.shared
  {
    SharedList(ResetToDefault(s.cell), s.shared)
  }

  /** While the objects are shared, the default follows every edit, so a reset restores nothing. */
  lemma AsWrittenResetKeepsEdits(s: SharedList, ps: seq<string>)
    requires s.shared
    ensures AsWrittenReset(AsWrittenEdit(s, ps)).cell.value == ps
    ensures AsWrittenReset(AsWrittenEdit(s, ps)).cell.changed == s.cell.changed
  {
  }

  /** A new list with no patterns, one pattern added, then reset: the pattern is still there. */
  lemma AsWrittenResetExample()
    ensures AsWrittenReset(AsWrittenAdd(AsWrittenNew([]), Some("a*"))).cell.value == ["a*"]
  {
    assert !IsNullOrWhiteSpace(Some("a*")) by {
      assert !IsWhiteSpace("a*"[0]);
    }
  }

  /** The list edits, as the settings window applies them. */
  datatype ListEdit = AddItem(item: Option<string>) | RemoveItem(x: string) | RemoveIndex(index: int) | ClearAll

  function Apply(s: PatternList, e: ListEdit): (r: PatternList)
    ensures r.default == s.default && r.changed == s.changed
  {
    match e
    case AddItem(item) => Add(s, item)
    case RemoveItem(x) => Remove(s, x).0
    case RemoveIndex(i) => if RemoveAt(s, i).Ok? then RemoveAt(s, i).value else s
    case ClearAll => Clear(s)
  }

  function ApplyAll(s: PatternList, es: seq<ListEdit>): PatternList
    decreases |es|
  {
    if es == [] then s else ApplyAll(Apply(s, es[0]), es[1..])
  }

  /**
   With the default kept apart from the value, no sequence of edits moves the
   default, and a reset afterwards restores the patterns the list was created
   with. The change count stays at zero because the edits' self-assignment
   fires nothing; whether edits ought to fire `Changed` is left out.
   */
  lemma {:induction false} EditsKeepDefault(d: seq<string>, es: seq<ListEdit>)
    ensures ApplyAll(NewPatternList(d), es).default == d
    ensures ApplyAll(NewPatternList(d), es).changed == 0
    ensures ResetToDefault(ApplyAll(NewPatternList(d), es)).value == d
  {
    EditsKeepSetting(NewPatternList(d), es);
  }

  lemma {:induction false} EditsKeepSetting(s: PatternList, es: seq<ListEdit>)
    ensures ApplyAll(s, es).default == s.default && ApplyAll(s, es).changed == s.changed
    decreases |es|
  {
    if es != [] {
      EditsKeepSetting(Apply(s, es[0]), es[1..]);
    }
  }
}
