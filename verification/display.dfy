/**
 The names the settings window shows: a settings class's display name and a
 field name split into words.
 */
module Display {
  /** The suffix dropped from settings class names. */
  const SettingsSuffix: string := "Settings"

  predicate EndsWith(s: string, suffix: string) {
    |suffix| <= |s| && s[|s| - |suffix|..] == suffix
  }

  /**
   `GetDisplayName`: `SettingSource` shows as `Login`, a name ending in
   `Settings` (compared ordinally) loses that suffix, any other name shows as it is.
   */
  function GetDisplayName(name: string): (r: string)
    ensures name == "SettingSource" ==> r == "Login"
    ensures name != "SettingSource" && EndsWith(name, SettingsSuffix) ==> r + SettingsSuffix == name
    ensures name != "SettingSource" && !EndsWith(name, SettingsSuffix) ==> r == name
  {
    if name == "SettingSource" then "Login"
    else if EndsWith(name, SettingsSuffix) then name[..|name| - 8]
    else name
  }

  /** Putting `Settings` after any name and taking the display name gives the name back. */
  lemma DisplayNameStripsSuffix(base: string)
    ensures GetDisplayName(base + SettingsSuffix) == base
  {
    var name := base + SettingsSuffix;
    assert name[|name| - 8..] == SettingsSuffix;
    assert name != "SettingSource" by {
      if |name| == 13 {
        assert name[12] == 's' && "SettingSource"[12] == 'e';
      }
    }
    assert name[..|name| - 8] == base;
  }

  lemma DisplayNameExamples()
    ensures GetDisplayName("MovementSettings") == "Movement"
    ensures GetDisplayName("SettingSource") == "Login"
    ensures GetDisplayName("Overlay") == "Overlay"
  {
    DisplayNameStripsSuffix("Movement");
    assert "Movement" + SettingsSuffix == "MovementSettings";
    assert !EndsWith("Overlay", SettingsSuffix);
  }

  /** Upper-case letters, as far as the model knows them: `A` to `Z`. */
  predicate IsUpper(c: char) {
    'A' <= c <= 'Z'
  }

  /** How many upper-case characters `s` has. */
  function UpperCount(s: string): nat {
    if s == [] then 0 else (if IsUpper(s[|s| - 1]) then 1 else 0) + UpperCount(s[..|s| - 1])
  }

  /**
   The inverse of the field-name formatting: every space directly followed
   by an upper-case character is dropped, every other character kept.
   */
  function Unformat(s: string): string {
    if s == [] then []
    else if |s| >= 2 && s[0] == ' ' && IsUpper(s[1]) then Unformat(s[1..])
    else [s[0]] + Unformat(s[1..])
  }

  /** `Unformat` works piecewise when no space at the seam is followed by an upper-case character. */
  lemma {:induction false} UnformatAppend(a: string, b: string)
    requires a == [] || b == [] || !(a[|a| - 1] == ' ' && IsUpper(b[0]))
    ensures Unformat(a + b) == Unformat(a) + Unformat(b)
    decreases |a|
  {
    if b == [] {
      assert a + b == a;
    } else if a != [] {
      assert (a + b)[1..] == a[1..] + b;
      UnformatAppend(a[1..], b);
      assert (a + b)[0] == a[0];
      if |a| >= 2 && a[0] == ' ' && IsUpper(a[1]) {
        assert (a + b)[1] == a[1];
        assert Unformat(a + b) == Unformat(a[1..] + b);
        assert Unformat(a) == Unformat(a[1..]);
      } else if |a| >= 2 {
        assert (a + b)[1] == a[1];
        assert Unformat(a + b) == [a[0]] + Unformat(a[1..] + b);
        assert Unformat(a) == [a[0]] + Unformat(a[1..]);
      } else {
        assert a[1..] == [] && (a + b)[1] == b[0];
        assert Unformat(a) == [a[0]];
        assert Unformat(a + b) == [a[0]] + Unformat(a[1..] + b);
      }
    } else {
      assert a + b == b;
    }
  }

  /** What the formatting loop appends for `c`: a space first when `c` is upper case and not the first character. */
  function Piece(r: string, c: char): string {
    if IsUpper(c) && |r| > 0 then [' ', c] else [c]
  }

  lemma PieceLength(name: string, i: nat, r: string)
    requires i < |name| && (i == 0 <==> r == [])
    requires i > 0 ==> |r| == i + UpperCount(name[1..i]) && r[0] == name[0]
    ensures |r + Piece(r, name[i])| == i + 1 + UpperCount(name[1..i + 1])
    ensures (r + Piece(r, name[i]))[0] == name[0]
  {
    var c := name[i];
    if i > 0 {
      assert name[1..i + 1] == name[1..i] + [c];
      assert (name[1..i] + [c])[..i - 1] == name[1..i];
    } else {
      assert name[1..1] == [];
    }
  }

  lemma PieceSpacing(r: string, c: char)
    requires forall k | 1 <= k < |r| && IsUpper(r[k]) :: r[k - 1] == ' '
    ensures var r' := r + Piece(r, c);
      forall k | 1 <= k < |r'| && IsUpper(r'[k]) :: r'[k - 1] == ' '
  {
  }

  lemma PieceUnformat(name: string, i: nat, r: string)
    requires i < |name| && Unformat(r) == name[..i]
    ensures Unformat(r + Piece(r, name[i])) == name[..i + 1]
  {
    var c := name[i];
    assert Unformat(Piece(r, c)) == [c] by {
      assert Unformat([c]) == [c] by {
        assert [c][1..] == [];
      }
      if IsUpper(c) && |r| > 0 {
        assert [' ', c][1..] == [c];
        assert Unformat([' ', c]) == Unformat([c]);
      }
    }
    UnformatAppend(r, Piece(r, c));
    assert name[..i + 1] == name[..i] + [c];
  }

  /**
   `FormatFieldName`: a space goes before every upper-case character that
   is not the first one, e.g. `DefaultRadius` becomes `Default Radius`. The
   result is one character longer per such upper-case character, and
   dropping the inserted spaces gives the field name back.
   */
  method FormatFieldName(name: string) returns (r: string)
    ensures |name| == 0 ==> r == []
    ensures |name| > 0 ==> |r| == |name| + UpperCount(name[1..]) && r[0] == name[0]
    ensures forall k | 1 <= k < |r| && IsUpper(r[k]) :: r[k - 1] == ' '
    ensures Unformat(r) == name
  {
    r := [];
    var i := 0;
    while i < |name|
      invariant 0 <= i <= |name|
      invariant i == 0 <==> r == []
      invariant i > 0 ==> |r| == i + UpperCount(name[1..i]) && r[0] == name[0]
      invariant forall k | 1 <= k < |r| && IsUpper(r[k]) :: r[k - 1] == ' '
      invariant Unformat(r) == name[..i]
    {
      PieceLength(name, i, r);
      PieceSpacing(r, name[i]);
      PieceUnformat(name, i, r);
      r := r + Piece(r, name[i]);
      i := i + 1;
    }
    assert name[..i] == name;
  }
}
