/**
  The bit-to-color table: four fixed keys, each with a display color and a
  display name. Colors can be overridden from stored data at start-up and by
  the color-edit form; the key set and the names never change.
 */
module ColorTable {
  import opened Wrappers
  import opened Codes
  import opened Answers

  datatype Entry = Entry(color: string, name: string)

  type Table = map<Code, Entry>

  /** Every one of the four codes has an entry. */
  predicate IsComplete(t: Table)
  {
    forall c: Code :: c in t
  }

  /** Two tables that differ at most in their colors. */
  predicate SameShape(t: Table, u: Table)
  {
    t.Keys == u.Keys && forall c :: c in t ==> t[c].name == u[c].name
  }

  /** The name the program gives each code; no operation ever changes it. */
  function DefaultName(c: Code): string
  {
    match c
    case B00 => "검정"
    case B01 => "파랑"
    case B10 => "노랑"
    case B11 => "회색"
  }

  /** Every name in the table is the program's own name for its code. */
  predicate HasDefaultNames(t: Table)
  {
    forall c :: c in t ==> t[c].name == DefaultName(c)
  }

  /** The table the program starts from. */
  function Defaults(): (t: Table)
    ensures IsComplete(t) && HasDefaultNames(t)
  {
    var t := map[B00 := Entry("#1a1a1a", DefaultName(B00)),
                 B01 := Entry("#4169e1", DefaultName(B01)),
                 B10 := Entry("#ffd700", DefaultName(B10)),
                 B11 := Entry("#a9a9a9", DefaultName(B11))];
    assert IsComplete(t) by {
      forall c: Code ensures c in t {
        CodeCases(c);
      }
    }
    t
  }

  /**
    The name column of a complete table, as a cell renderer. A table whose
    names are the defaults, which is every live table, renders names that
    tell the codes apart and can be split back out of an answer.
   */
  function Names(t: Table): (f: Code -> string)
    requires IsComplete(t)
    ensures forall c :: f(c) == t[c].name
    ensures HasDefaultNames(t) ==> IsFaithfulRenderer(f)
  {
    DefaultsAreWellFormed();
    c => if c in t then t[c].name else ""
  }

  /**
    Every default color is a `#RRGGBB` color, and the default names tell the
    codes apart and can serve as cells of an answer.
   */
  lemma DefaultsAreWellFormed()
    ensures forall c :: IsHexColor(Defaults()[c].color) && IsCellText(DefaultName(c))
    ensures forall c, d :: DefaultName(c) == DefaultName(d) ==> c == d
  {
    var t := Defaults();
    forall c ensures IsHexColor(t[c].color) && IsCellText(DefaultName(c)) {
      CodeCases(c);
    }
    forall c, d | DefaultName(c) == DefaultName(d) ensures c == d {
      CodeCases(c);
      CodeCases(d);
    }
  }

  // ---------------------------------------------------------------------------
  // The color format accepted by the edit form: `^#[0-9A-Fa-f]{6}$`

  predicate IsHexDigit(ch: char)
  {
    '0' <= ch <= '9' || 'A' <= ch <= 'F' || 'a' <= ch <= 'f'
  }

  /** A `#` followed by exactly six hexadecimal digits, and nothing else. */
  predicate IsHexColor(s: string)
  {
    |s| == 7 && s[0] == '#' && forall i :: 1 <= i < 7 ==> IsHexDigit(s[i])
  }

  /** One position of an anchored regular expression made only of single-character classes. */
  datatype CharClass = Exactly(ch: char) | HexDigitClass

  predicate Admits(k: CharClass, ch: char)
  {
    match k
    case Exactly(x) => ch == x
    case HexDigitClass => IsHexDigit(ch)
  }

  /** The edit form's pattern, with the repetition `{6}` written out. */
  const HexColorRegex: seq<CharClass> :=
    [Exactly('#'), HexDigitClass, HexDigitClass, HexDigitClass, HexDigitClass, HexDigitClass, HexDigitClass]

  /** Matching anchored at both ends (`^...$`), one class per character, left to right. */
  predicate MatchesWhole(pattern: seq<CharClass>, s: string)
  {
    if pattern == [] then s == []
    else |s| > 0 && Admits(pattern[0], s[0]) && MatchesWhole(pattern[1..], s[1..])
  }

  /** An anchored match consumes the whole string, one admitted character per position. */
  lemma {:induction false} MatchesWholeIsPositionwise(pattern: seq<CharClass>, s: string)
    ensures MatchesWhole(pattern, s) <==>
            |s| == |pattern| && forall i :: 0 <= i < |s| ==> Admits(pattern[i], s[i])
  {
    if pattern != [] && |s| > 0 {
      MatchesWholeIsPositionwise(pattern[1..], s[1..]);
      if |s| == |pattern| && forall i :: 0 <= i < |s| ==> Admits(pattern[i], s[i]) {
        assert forall i :: 0 <= i < |s| - 1 ==> Admits(pattern[1..][i], s[1..][i]) by {
          forall i | 0 <= i < |s| - 1 ensures Admits(pattern[1..][i], s[1..][i]) {
            assert Admits(pattern[i + 1], s[i + 1]);
          }
        }
      }
    }
  }

  /** The regular expression accepts exactly the strings IsHexColor describes. */
  lemma HexColorRegexAccepts(s: string)
    ensures MatchesWhole(HexColorRegex, s) <==> IsHexColor(s)
  {
    MatchesWholeIsPositionwise(HexColorRegex, s);
    if |s| == 7 {
      forall i | 1 <= i < 7 ensures Admits(HexColorRegex[i], s[i]) <==> IsHexDigit(s[i]) {
        assert HexColorRegex[i] == HexDigitClass;
      }
    }
  }

  // ---------------------------------------------------------------------------
  // Stored colors: an object from key text to color text

  /** The colors a table writes to storage: one member per key, holding its color. */
  function SaveBlob(t: Table): map<string, string>
  {
    map c | c in t :: Bits(c) := t[c].color
  }

  /** A table after stored colors were applied to it: keys that name a code override that color. */
  function Overlay(t: Table, saved: map<string, string>): Table
  {
    map c | c in t :: if Bits(c) in saved then Entry(saved[Bits(c)], t[c].name) else t[c]
  }

  /** The stored members restricted to the keys in `done`. */
  function Restrict(saved: map<string, string>, done: set<string>): map<string, string>
  {
    map k | k in saved && k in done :: saved[k]
  }

  /** The saved object has exactly the four key texts and each holds that key's color. */
  lemma SaveBlobContents(t: Table)
    requires IsComplete(t)
    ensures forall k :: k in SaveBlob(t) <==> ParseKey(k).Some?
    ensures forall c: Code :: SaveBlob(t)[Bits(c)] == t[c].color
  {
    forall k ensures k in SaveBlob(t) <==> ParseKey(k).Some? {
      if k in SaveBlob(t) {
        var c :| c in t && Bits(c) == k;
        assert ParseKey(k) == Some(c);
      }
    }
  }

  /** Applying stored colors never adds or removes a key and never renames one. */
  lemma OverlayKeepsShape(t: Table, saved: map<string, string>)
    ensures SameShape(Overlay(t, saved), t)
  {
  }

  /** Stored members whose key is not one of the four codes have no effect. */
  lemma OverlayIgnoresUnknownKeys(t: Table, saved: map<string, string>, junk: map<string, string>)
    requires forall k :: k in junk ==> ParseKey(k).None?
    ensures Overlay(t, saved + junk) == Overlay(t, saved)
  {
    forall c | c in t ensures Bits(c) !in junk {
      assert ParseKey(Bits(c)) == Some(c);
    }
  }

  /** Reloading what was saved restores every color of the saved table. */
  lemma SaveThenLoadRestores(t: Table, u: Table)
    requires SameShape(t, u)
    ensures Overlay(u, SaveBlob(t)) == t
  {
    var blob := SaveBlob(t);
    forall c | c in u ensures Bits(c) in blob && blob[Bits(c)] == t[c].color {
      assert c in t;
    }
  }

  /** Applying the stored members one key at a time: the step for one more key. */
  lemma OverlayStep(t: Table, saved: map<string, string>, done: set<string>, k: string)
    requires k in saved && k !in done
    ensures ParseKey(k).None? ==>
              Overlay(t, Restrict(saved, done + {k})) == Overlay(t, Restrict(saved, done))
    ensures ParseKey(k).Some? && ParseKey(k).value in t ==>
              var c := ParseKey(k).value;
              Overlay(t, Restrict(saved, done + {k})) ==
              Overlay(t, Restrict(saved, done))[c := Entry(saved[k], t[c].name)]
  {
    var before, after := Restrict(saved, done), Restrict(saved, done + {k});
    if ParseKey(k).None? {
      assert after == before + map[k := saved[k]];
      OverlayIgnoresUnknownKeys(t, before, map[k := saved[k]]);
    } else if ParseKey(k).value in t {
      var c := ParseKey(k).value;
      forall d | d in t && d != c ensures (Bits(d) in after <==> Bits(d) in before) {
        assert ParseKey(Bits(d)) == Some(d);
      }
    }
  }

  /** The restriction to every stored key is the whole stored object. */
  lemma RestrictAll(saved: map<string, string>)
    ensures Restrict(saved, saved.Keys) == saved
  {
  }

  // ---------------------------------------------------------------------------

  /** The live color table together with the key whose edit form is open. */
  class CodeTable {
    var entries: Table
    var editing: Option<Code>

    /** All four keys are present and their names are the default names. */
    ghost predicate Valid()
      reads this
    {
      IsComplete(entries) && HasDefaultNames(entries)
    }

    /** The defaults, with no edit form open. */
    constructor ()
      ensures Valid()
      ensures entries == Defaults() && editing == None
    {
      entries := Defaults();
      editing := None;
    }

    /**
      Applies stored colors at start-up. `saved` is None when nothing is
      stored, or when what is stored does not parse as an object; then the
      table is left as it is. Members are visited in no particular order.
     */
    method LoadCustomColors(saved: Option<map<string, string>>)
      requires Valid()
      modifies this`entries
      ensures Valid() && SameShape(entries, old(entries))
      ensures entries == if saved.Some? then Overlay(old(entries), saved.value) else old(entries)
    {
      if saved.None? {
        return;
      }
      var blob := saved.value;
      ghost var start := entries;
      assert Overlay(start, Restrict(blob, {})) == start;
      var todo := blob.Keys;
      while todo != {}
        invariant todo <= blob.Keys
        invariant entries == Overlay(start, Restrict(blob, blob.Keys - todo))
        decreases todo
      {
        var k :| k in todo;
        OverlayStep(start, blob, blob.Keys - todo, k);
        assert blob.Keys - todo + {k} == blob.Keys - (todo - {k});
        var key := ParseKey(k);
        if key.Some? {
          var c := key.value;
          entries := entries[c := Entry(blob[k], entries[c].name)];
        }
        todo := todo - {k};
      }
      RestrictAll(blob);
      OverlayKeepsShape(start, blob);
    }

    /** The object written to storage: every key with its current color. */
    method SaveCustomColors() returns (blob: map<string, string>)
      requires Valid()
      ensures blob == SaveBlob(entries)
    {
      blob := map[];
      var i := 0;
      while i < |KeyOrder|
        invariant 0 <= i <= |KeyOrder|
        invariant forall k :: k in blob <==> ParseKey(k).Some? && ParseKey(k).value in KeyOrder[..i]
        invariant forall c :: c in KeyOrder[..i] ==> blob[Bits(c)] == entries[c].color
      {
        var c := KeyOrder[i];
        assert KeyOrder[..i + 1] == KeyOrder[..i] + [c];
        assert ParseKey(Bits(c)) == Some(c);
        blob := blob[Bits(c) := entries[c].color];
        i := i + 1;
      }
      KeyOrderIsBijection();
      assert KeyOrder[..i] == KeyOrder;
      SaveBlobContents(entries);
      assert blob.Keys == SaveBlob(entries).Keys;
      forall k | k in blob ensures blob[k] == SaveBlob(entries)[k] {
        assert Bits(ParseKey(k).value) == k;
      }
    }

    /** Opens the edit form for one key. */
    method OpenColorModal(c: Code)
      modifies this`editing
      ensures editing == Some(c)
    {
      editing := Some(c);
    }

    /** Closes the edit form without committing anything. */
    method CloseColorModal()
      modifies this`editing
      ensures editing == None
    {
      editing := None;
    }

    /**
      The save button. A color is committed only while an edit form is open
      and `input` is a `#RRGGBB` color; then that key's color changes, the
      whole table is written out (the returned object) and the form closes.
      Otherwise nothing changes.
     */
    method SaveColor(input: string) returns (written: Option<map<string, string>>)
      requires Valid()
      modifies this
      ensures Valid() && SameShape(entries, old(entries))
      ensures written.Some? <==> old(editing).Some? && IsHexColor(input)
      ensures written.Some? ==>
                var c := old(editing).value;
                && entries == old(entries)[c := Entry(input, old(entries)[c].name)]
                && editing == None
                && written.value == SaveBlob(entries)
      ensures written.None? ==> entries == old(entries) && editing == old(editing)
    {
      if editing.Some? && IsHexColor(input) {
        var c := editing.value;
        entries := entries[c := Entry(input, entries[c].name)];
        var blob := SaveCustomColors();
        written := Some(blob);
        CloseColorModal();
      } else {
        written := None;
      }
    }
  }
}
