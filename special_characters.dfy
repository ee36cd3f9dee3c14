/**
 * `TextCleaner.clean_special_characters`: eight Unicode punctuation marks are
 * replaced by ASCII, one table entry after the other, and the C0/C1 control
 * characters other than tab, newline and carriage return are deleted.
 */
module SpecialCharacters {
  import opened TextBasics

  /** The replacement table, in the order the source iterates over it. */
  const Replacements: seq<(char, string)> := [
    ('\U{A0}', " "),      // no-break space
    ('\U{2018}', "'"),    // left single quotation mark
    ('\U{2019}', "'"),    // right single quotation mark
    ('\U{201C}', "\""),   // left double quotation mark
    ('\U{201D}', "\""),   // right double quotation mark
    ('\U{2013}', "-"),    // en dash
    ('\U{2014}', "-"),    // em dash
    ('\U{2026}', "...")   // horizontal ellipsis
  ]

  const Ellipsis: char := '\U{2026}'

  predicate IsReplaced(c: char)
  {
    exists k :: 0 <= k < |Replacements| && Replacements[k].0 == c
  }

  /** The class `[\x00-\x08\x0b-\x0c\x0e-\x1f\x7f-\x9f]`. */
  predicate IsControl(c: char)
  {
    var n := c as int;
    (0 <= n <= 0x08) || (0x0B <= n <= 0x0C) || (0x0E <= n <= 0x1F) || (0x7F <= n <= 0x9F)
  }

  /** Python's `s.replace(target, replacement)` for a one-character `target`. */
  function ReplaceChar(s: string, target: char, replacement: string): (r: string)
    ensures target !in s ==> r == s
  {
    if s == [] then []
    else (if s[0] == target then replacement else [s[0]]) + ReplaceChar(s[1..], target, replacement)
  }

  /** `re.sub(r'[\x00-\x08\x0b-\x0c\x0e-\x1f\x7f-\x9f]', '', s)`. */
  function RemoveControls(s: string): (r: string)
  {
    if s == [] then []
    else (if IsControl(s[0]) then [] else [s[0]]) + RemoveControls(s[1..])
  }

  // ---------------------------------------------------------------------------
  // Reference definition: what happens to each character on its own.

  /** What the whole operation makes of a single character. */
  function Image(c: char): (r: string)
  {
    if c == '\U{A0}' then " "
    else if c == '\U{2018}' || c == '\U{2019}' then "'"
    else if c == '\U{201C}' || c == '\U{201D}' then "\""
    else if c == '\U{2013}' || c == '\U{2014}' then "-"
    else if c == Ellipsis then "..."
    else if IsControl(c) then []
    else [c]
  }

  /** The cleaned text: every character replaced by its image. */
  function Cleaned(s: string): (r: string)
  {
    if s == [] then [] else Image(s[0]) + Cleaned(s[1..])
  }

  // ---------------------------------------------------------------------------
  // The loop over the table.

  /** What a single character has become after the first `k` table entries. */
  function ImageUpTo(c: char, k: nat): (r: string)
    requires k <= |Replacements|
  {
    if k == 0 then [c]
    else if Replacements[k - 1].0 == c then Replacements[k - 1].1
    else ImageUpTo(c, k - 1)
  }

  /** The text after the first `k` calls of `str.replace`. */
  function ReplacedUpTo(s: string, k: nat): (r: string)
    requires k <= |Replacements|
  {
    if s == [] then [] else ImageUpTo(s[0], k) + ReplacedUpTo(s[1..], k)
  }

  lemma ReplaceCharAppend(s: string, t: string, target: char, replacement: string)
    ensures ReplaceChar(s + t, target, replacement) == ReplaceChar(s, target, replacement) + ReplaceChar(t, target, replacement)
  {
    if s == [] {
      assert s + t == t;
    } else {
      assert (s + t)[1..] == s[1..] + t;
    }
  }

  /** Table keys are pairwise distinct, and no replacement contains any key. */
  lemma TableFacts()
    ensures forall j, k :: 0 <= j < k < |Replacements| ==> Replacements[j].0 != Replacements[k].0
    ensures forall j, k :: 0 <= j < |Replacements| && 0 <= k < |Replacements| ==> Replacements[k].0 !in Replacements[j].1
  {
  }

  lemma {:induction false} ImageUpToCases(c: char, k: nat)
    requires k <= |Replacements|
    ensures ImageUpTo(c, k) == [c] || exists j :: 0 <= j < k && Replacements[j].0 == c && ImageUpTo(c, k) == Replacements[j].1
    ensures (forall j :: 0 <= j < k ==> Replacements[j].0 != c) ==> ImageUpTo(c, k) == [c]
  {
    if k > 0 {
      ImageUpToCases(c, k - 1);
    }
  }

  /** A replacement already made is never touched by a later table entry. */
  lemma ImageStep(c: char, k: nat)
    requires k < |Replacements|
    ensures ReplaceChar(ImageUpTo(c, k), Replacements[k].0, Replacements[k].1) == ImageUpTo(c, k + 1)
  {
    TableFacts();
    ImageUpToCases(c, k);
    var key, rep := Replacements[k].0, Replacements[k].1;
    if ImageUpTo(c, k) == [c] {
      assert [c][1..] == [];
    } else {
      var j :| 0 <= j < k && Replacements[j].0 == c && ImageUpTo(c, k) == Replacements[j].1;
      assert key !in ImageUpTo(c, k);
    }
  }

  lemma {:induction false} ReplaceStep(s: string, k: nat)
    requires k < |Replacements|
    ensures ReplaceChar(ReplacedUpTo(s, k), Replacements[k].0, Replacements[k].1) == ReplacedUpTo(s, k + 1)
  {
    if s != [] {
      ReplaceStep(s[1..], k);
      ReplaceCharAppend(ImageUpTo(s[0], k), ReplacedUpTo(s[1..], k), Replacements[k].0, Replacements[k].1);
      ImageStep(s[0], k);
    }
  }

  lemma RemoveControlsAppend(s: string, t: string)
    ensures RemoveControls(s + t) == RemoveControls(s) + RemoveControls(t)
  {
    if s == [] {
      assert s + t == t;
    } else {
      assert (s + t)[1..] == s[1..] + t;
    }
  }

  /** After the whole table, a character has become its image, up to control deletion. */
  lemma ImageAfterTable(c: char)
    ensures RemoveControls(ImageUpTo(c, |Replacements|)) == Image(c)
  {
    assert ImageUpTo(c, 1) == if c == '\U{A0}' then " " else [c];
    assert ImageUpTo(c, 2) == if c == '\U{2018}' then "'" else ImageUpTo(c, 1);
    assert ImageUpTo(c, 3) == if c == '\U{2019}' then "'" else ImageUpTo(c, 2);
    assert ImageUpTo(c, 4) == if c == '\U{201C}' then "\"" else ImageUpTo(c, 3);
    assert ImageUpTo(c, 5) == if c == '\U{201D}' then "\"" else ImageUpTo(c, 4);
    assert ImageUpTo(c, 6) == if c == '\U{2013}' then "-" else ImageUpTo(c, 5);
    assert ImageUpTo(c, 7) == if c == '\U{2014}' then "-" else ImageUpTo(c, 6);
    assert ImageUpTo(c, 8) == if c == Ellipsis then "..." else ImageUpTo(c, 7);
    var r := ImageUpTo(c, 8);
    if r == [c] {
      assert [c][1..] == [];
    } else {
      assert RemoveControls(r) == r by {
        assert r in {" ", "'", "\"", "-", "..."};
      }
    }
  }

  lemma {:induction false} AfterTable(s: string)
    ensures RemoveControls(ReplacedUpTo(s, |Replacements|)) == Cleaned(s)
  {
    if s != [] {
      AfterTable(s[1..]);
      RemoveControlsAppend(ImageUpTo(s[0], |Replacements|), ReplacedUpTo(s[1..], |Replacements|));
      ImageAfterTable(s[0]);
    }
  }

  /**
   * The source's loop: `text = text.replace(old, new)` for each table entry in
   * turn, then the control characters are deleted.  The result is the
   * character-by-character image of the input.
   */
  method CleanSpecialCharacters(text: string) returns (r: string)
    ensures r == Cleaned(text)
  {
    r := text;
    assert r == ReplacedUpTo(text, 0) by { ReplacedUpToZero(text); }
    for k := 0 to |Replacements|
      invariant r == ReplacedUpTo(text, k)
    {
      ReplaceStep(text, k);
      r := ReplaceChar(r, Replacements[k].0, Replacements[k].1);
    }
    AfterTable(text);
    r := RemoveControls(r);
  }

  lemma {:induction false} ReplacedUpToZero(s: string)
    ensures ReplacedUpTo(s, 0) == s
  {
    if s != [] {
      ReplacedUpToZero(s[1..]);
    }
  }

  // ---------------------------------------------------------------------------
  // Properties of the cleaned text.

  /** A character that may appear in cleaned text: neither a table key nor a deleted control. */
  predicate Survives(c: char)
  {
    !IsReplaced(c) && !IsControl(c)
  }

  lemma ImageSurvives(c: char)
    ensures forall i :: 0 <= i < |Image(c)| ==> Survives(Image(c)[i])
  {
    KeysHaveOwnImage(c);
  }

  /** A table key is mapped to something other than itself, and never to a control or a key. */
  lemma KeysHaveOwnImage(c: char)
    ensures IsReplaced(c) <==> c in ['\U{A0}', '\U{2018}', '\U{2019}', '\U{201C}', '\U{201D}', '\U{2013}', '\U{2014}', Ellipsis]
  {
    var keys := ['\U{A0}', '\U{2018}', '\U{2019}', '\U{201C}', '\U{201D}', '\U{2013}', '\U{2014}', Ellipsis];
    assert forall k :: 0 <= k < |Replacements| ==> Replacements[k].0 == keys[k];
    if c in keys {
      var k :| 0 <= k < |keys| && keys[k] == c;
      assert Replacements[k].0 == c;
    }
  }

  /** No table character and no deleted control character is left. */
  lemma {:induction false} CleanedHasNoSpecials(s: string)
    ensures forall i :: 0 <= i < |Cleaned(s)| ==> Survives(Cleaned(s)[i])
  {
    if s != [] {
      CleanedHasNoSpecials(s[1..]);
      ImageSurvives(s[0]);
      var a, b := Image(s[0]), Cleaned(s[1..]);
      assert forall i :: |a| <= i < |a + b| ==> (a + b)[i] == b[i - |a|];
    }
  }

  /** The number of characters the control class deletes. */
  function CountControls(s: string): (n: nat)
    ensures n <= |s|
  {
    if s == [] then 0 else (if IsControl(s[0]) then 1 else 0) + CountControls(s[1..])
  }

  /** Each ellipsis adds two characters and each control character removes one. */
  lemma {:induction false} CleanedLength(s: string)
    ensures |Cleaned(s)| == |s| + 2 * CountChar(s, Ellipsis) - CountControls(s)
  {
    if s != [] {
      CleanedLength(s[1..]);
    }
  }

  /**
   * A character that is neither in the table nor a control character, and
   * that no replacement produces, occurs exactly as often before as after:
   * in particular newline, tab and carriage return are all kept.
   */
  lemma {:induction false} CleanedKeepsCount(s: string, c: char)
    requires Survives(c) && c !in " '\"-."
    ensures CountChar(Cleaned(s), c) == CountChar(s, c)
  {
    if s != [] {
      CleanedKeepsCount(s[1..], c);
      CountCharAppend(Image(s[0]), Cleaned(s[1..]), c);
      KeysHaveOwnImage(s[0]);
      KeysHaveOwnImage(c);
    }
  }

  lemma KeepsLineBreaksAndTabs(s: string)
    ensures CountChar(Cleaned(s), '\n') == CountChar(s, '\n')
    ensures CountChar(Cleaned(s), '\t') == CountChar(s, '\t')
    ensures CountChar(Cleaned(s), '\r') == CountChar(s, '\r')
  {
    KeysHaveOwnImage('\n');
    KeysHaveOwnImage('\t');
    KeysHaveOwnImage('\r');
    CleanedKeepsCount(s, '\n');
    CleanedKeepsCount(s, '\t');
    CleanedKeepsCount(s, '\r');
  }

  /** Text made only of surviving characters is returned unchanged. */
  lemma {:induction false} CleanedIdentity(s: string)
    requires forall i :: 0 <= i < |s| ==> Survives(s[i])
    ensures Cleaned(s) == s
  {
    if s != [] {
      CleanedIdentity(s[1..]);
      KeysHaveOwnImage(s[0]);
    }
  }
}
