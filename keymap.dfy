/** The transliteration tables and the pure text transforms of main.py:
    the English-to-Hebrew keyboard table, its derived inverse, the Hebrew
    block test and the per-character substitution. */
module Keymap {

  /** `en_to_he`: the character printed on each key of a US keyboard mapped
      to the character the same key gives under the standard Hebrew layout. */
  const EnToHe: map<char, char> := map[
    'q' := '/', 'w' := '\'', 'e' := 'ק', 'r' := 'ר', 't' := 'א', 'y' := 'ט',
    'u' := 'ו', 'i' := 'ן', 'o' := 'ם', 'p' := 'פ',
    'a' := 'ש', 's' := 'ד', 'd' := 'ג', 'f' := 'כ', 'g' := 'ע', 'h' := 'י',
    'j' := 'ח', 'k' := 'ל', 'l' := 'ך',
    'z' := 'ז', 'x' := 'ס', 'c' := 'ב', 'v' := 'ה', 'b' := 'נ', 'n' := 'מ',
    'm' := 'צ',
    ',' := 'ת', '.' := 'ץ', ';' := 'ף'
  ]

  /** A map no two of whose keys share a value. */
  ghost predicate Injective(m: map<char, char>) {
    forall a, b :: a in m && b in m && a != b ==> m[a] != m[b]
  }

  /** The map that swaps every key and value of `m`, as the dict
      comprehension `{v: k for k, v in m.items()}` does. It is defined for
      injective maps only, where the order of the pairs does not matter. */
  function Invert(m: map<char, char>): (r: map<char, char>)
    requires Injective(m)
    ensures r.Keys == m.Values
    ensures forall k :: k in m ==> r[m[k]] == k
  {
    var r := map p | p in m.Items :: p.1 := p.0;
    assert forall k :: k in m ==> (k, m[k]) in m.Items && r[(k, m[k]).1] == k;
    assert forall v :: v in m.Values ==> v in r by {
      forall v | v in m.Values ensures v in r {
        var k :| k in m && m[k] == v;
        assert (k, v) in m.Items;
      }
    }
    r
  }

  /** `he_to_en`, derived from `en_to_he`. */
  const HeToEn: map<char, char> := (EnToHeInjective(); Invert(EnToHe))

  /** ASCII lower-casing: 'A'..'Z' to 'a'..'z', every other character kept. */
  function Lower(c: char): (l: char)
    ensures 'A' <= c <= 'Z' ==> 'a' <= l <= 'z' && l as int - c as int == 32
    ensures !('A' <= c <= 'Z') ==> l == c
  {
    if 'A' <= c <= 'Z' then (c as int + 32) as char else c
  }

  /** The code points U+0590..U+05FF, the Unicode Hebrew block. */
  predicate InHebrewBlock(c: char): (b: bool)
    ensures b <==> 0x0590 <= c as int <= 0x05FF
  {
    '\U{0590}' <= c <= '\U{05FF}'
  }

  /** `is_hebrew`: some character of the text lies in the Hebrew block. */
  function IsHebrew(text: string): (b: bool)
    ensures b <==> exists i :: 0 <= i < |text| && InHebrewBlock(text[i])
  {
    if text == [] then false
    else if InHebrewBlock(text[0]) then true
    else
      var rest := IsHebrew(text[1..]);
      assert forall i :: 1 <= i < |text| ==> text[i] == text[1..][i - 1];
      rest
  }

  /** `mapping.get(char.lower(), char)`: the one character that replaces `c`. */
  function Substitute(mapping: map<char, char>, c: char): (r: char)
    ensures Lower(c) in mapping ==> r == mapping[Lower(c)]
    ensures Lower(c) !in mapping ==> r == c
  {
    if Lower(c) in mapping then mapping[Lower(c)] else c
  }

  /** `convert_text`: every character is replaced by its substitute, so the
      result has exactly the input's length and is fixed position by position. */
  function ConvertText(text: string, mapping: map<char, char>): (r: string)
    ensures |r| == |text|
    ensures forall i :: 0 <= i < |text| ==> r[i] == Substitute(mapping, text[i])
  {
    if text == [] then []
    else [Substitute(mapping, text[0])] + ConvertText(text[1..], mapping)
  }

  /** The text with every ASCII capital lowered. */
  function LowerAll(text: string): (r: string)
    ensures |r| == |text|
    ensures forall i :: 0 <= i < |text| ==> r[i] == Lower(text[i])
  {
    seq(|text|, i requires 0 <= i < |text| => Lower(text[i]))
  }

  /** The conversion `auto_convert` applies to the copied text: Hebrew to
      English when the text contains any Hebrew-block character, English to
      Hebrew otherwise. */
  function ConvertSelection(text: string): (r: string)
    ensures |r| == |text|
    ensures IsHebrew(text) ==> r == ConvertText(text, HeToEn)
    ensures !IsHebrew(text) ==> r == ConvertText(text, EnToHe)
  {
    if IsHebrew(text) then ConvertText(text, HeToEn) else ConvertText(text, EnToHe)
  }

  // ---------------------------------------------------------------------
  // The tables

  lemma EnToHeInjective()
    ensures Injective(EnToHe)
  {
  }

  /** `he_to_en` is the inverse of `en_to_he`. */
  lemma HeToEnInverts()
    ensures Injective(EnToHe) && HeToEn == Invert(EnToHe)
  {
    EnToHeInjective();
  }

  /** The keys of `en_to_he` are the 26 lower-case letters and ",.;"; none is
      an ASCII capital, so lowering a key leaves it alone. */
  lemma EnToHeKeys()
    ensures forall c :: 'a' <= c <= 'z' ==> c in EnToHe
    ensures forall c :: c in EnToHe ==> ('a' <= c <= 'z' || c == ',' || c == '.' || c == ';')
  {
  }

  /** The values of `en_to_he` are '/', the apostrophe and Hebrew letters:
      none is an ASCII capital, and only the first two lie outside the
      Hebrew block. */
  lemma EnToHeValues()
    ensures forall c :: c in EnToHe.Values ==> Lower(c) == c
    ensures forall c :: c in EnToHe.Values ==> InHebrewBlock(c) || c == '/' || c == '\''
    ensures forall k :: k in EnToHe && k != 'q' && k != 'w' ==> InHebrewBlock(EnToHe[k])
  {
  }

  /** The inverse law in both directions: `he_to_en[en_to_he[k]] == k` for
      every key k of `en_to_he`, `en_to_he[he_to_en[v]] == v` for every key v of
      `he_to_en`, and the keys of each table are the values of the other. */
  lemma InverseLaw()
    ensures HeToEn.Keys == EnToHe.Values && EnToHe.Keys == HeToEn.Values
    ensures forall k :: k in EnToHe ==> EnToHe[k] in HeToEn && HeToEn[EnToHe[k]] == k
    ensures forall v :: v in HeToEn ==> HeToEn[v] in EnToHe && EnToHe[HeToEn[v]] == v
  {
    forall v | v in HeToEn
      ensures HeToEn[v] in EnToHe && EnToHe[HeToEn[v]] == v
    {
      HeToEnLookup(v);
    }
    forall k | k in EnToHe
      ensures EnToHe[k] in HeToEn && HeToEn[EnToHe[k]] == k
    {
      EnToHeLookup(k);
    }
    forall k | k in EnToHe ensures k in HeToEn.Values {
      EnToHeLookup(k);
    }
  }

  /** Every key of `he_to_en` is a value of `en_to_he`, found under the key
      `he_to_en` sends it to. */
  lemma HeToEnLookup(v: char)
    requires v in HeToEn
    ensures HeToEn[v] in EnToHe && EnToHe[HeToEn[v]] == v
  {
    HeToEnInverts();
    var k :| k in EnToHe && EnToHe[k] == v;
  }

  /** `he_to_en` undoes `en_to_he` on each key. */
  lemma EnToHeLookup(k: char)
    requires k in EnToHe
    ensures EnToHe[k] in HeToEn && HeToEn[EnToHe[k]] == k
  {
    HeToEnInverts();
  }

  // ---------------------------------------------------------------------
  // convert_text

  /** A character whose lowered form is not a key comes through unchanged. */
  lemma PassThrough(text: string, mapping: map<char, char>, i: nat)
    requires i < |text| && Lower(text[i]) !in mapping
    ensures ConvertText(text, mapping)[i] == text[i]
  {
  }

  /** Lookup ignores ASCII case: 'A' and 'a' both become 'ש'. */
  lemma CaseInsensitiveExample()
    ensures ConvertText("A", EnToHe) == ConvertText("a", EnToHe) == "ש"
  {
  }

  /** English-to-Hebrew conversion does not see case at all: every capital
      converts as its lower-case letter does, because every lower-case letter
      is a key of `en_to_he`. */
  lemma {:induction false} EnToHeIgnoresCase(text: string)
    ensures ConvertText(text, EnToHe) == ConvertText(LowerAll(text), EnToHe)
  {
    EnToHeKeys();
    var a, b := ConvertText(text, EnToHe), ConvertText(LowerAll(text), EnToHe);
    forall i | 0 <= i < |text| ensures a[i] == b[i] {
      assert Lower(Lower(text[i])) == Lower(text[i]);
    }
  }

  /** Round trip from English: text whose every character lowers to a key of
      `en_to_he` converts to Hebrew and back to its lower-cased self. */
  lemma {:induction false} RoundTripFromEnglish(text: string)
    requires forall i :: 0 <= i < |text| ==> Lower(text[i]) in EnToHe
    ensures ConvertText(ConvertText(text, EnToHe), HeToEn) == LowerAll(text)
  {
    InverseLaw();
    EnToHeValues();
    var he := ConvertText(text, EnToHe);
    var back := ConvertText(he, HeToEn);
    forall i | 0 <= i < |text| ensures back[i] == Lower(text[i]) {
      assert he[i] == EnToHe[Lower(text[i])];
      assert he[i] in EnToHe.Values;
    }
  }

  /** Round trip from English for text made only of keys of `en_to_he`. */
  lemma RoundTripFromEnglishKeys(text: string)
    requires forall i :: 0 <= i < |text| ==> text[i] in EnToHe
    ensures ConvertText(ConvertText(text, EnToHe), HeToEn) == text
  {
    EnToHeKeys();
    RoundTripFromEnglish(text);
    assert LowerAll(text) == text;
  }

  /** Round trip from Hebrew: text made only of keys of `he_to_en` converts to
      English and back to itself. */
  lemma {:induction false} RoundTripFromHebrew(text: string)
    requires forall i :: 0 <= i < |text| ==> text[i] in HeToEn
    ensures ConvertText(ConvertText(text, HeToEn), EnToHe) == text
  {
    InverseLaw();
    EnToHeKeys();
    EnToHeValues();
    var en := ConvertText(text, HeToEn);
    var back := ConvertText(en, EnToHe);
    forall i | 0 <= i < |text| ensures back[i] == text[i] {
      assert text[i] in EnToHe.Values;
      assert Lower(text[i]) == text[i];
      assert en[i] == HeToEn[text[i]];
      assert Lower(en[i]) == en[i];
    }
  }

  // ---------------------------------------------------------------------
  // The direction chosen by auto_convert

  /** Converting text made of English keys and then converting the result
      again (after re-selecting it, or with the select-all hotkey on a field
      holding only that text) gives the text back, provided the first
      conversion produced some Hebrew letter, i.e. the text holds some key
      other than 'q' and 'w'. */
  lemma {:induction false} ToggleTwiceFromEnglish(text: string, j: nat)
    requires forall i :: 0 <= i < |text| ==> text[i] in EnToHe
    requires j < |text| && text[j] != 'q' && text[j] != 'w'
    ensures ConvertSelection(ConvertSelection(text)) == text
  {
    EnToHeKeys();
    EnToHeValues();
    assert !IsHebrew(text) by {
      forall i | 0 <= i < |text| ensures !InHebrewBlock(text[i]) { }
    }
    var he := ConvertText(text, EnToHe);
    assert he[j] == EnToHe[text[j]];
    assert InHebrewBlock(he[j]);
    assert IsHebrew(he);
    RoundTripFromEnglishKeys(text);
  }

  /** The whole-string direction test makes conversion no toggle on text
      such as "q": it becomes "/", which holds no Hebrew letter, so converting
      the result again (after re-selecting it) converts English to Hebrew
      once more and leaves "/" alone. */
  lemma ToggleTwiceFailsOnSlash()
    ensures ConvertSelection("q") == "/"
    ensures ConvertSelection(ConvertSelection("q")) == "/"
  {
    assert !IsHebrew("q");
    assert ConvertText("q", EnToHe) == "/";
    assert !IsHebrew("/");
    EnToHeKeys();
    assert "/"[0] !in EnToHe;
  }

  /** Converting Hebrew-layout text (text made only of keys of `he_to_en`)
      and then converting the result again (after re-selecting it, or with
      the select-all hotkey on a field holding only that text) gives the text
      back. With a Hebrew letter in it, the first conversion goes to English
      and the second back; without one, the text is only '/' and apostrophes,
      which no conversion changes. */
  lemma {:induction false} ToggleTwiceFromHebrew(text: string)
    requires forall i :: 0 <= i < |text| ==> text[i] in HeToEn
    ensures ConvertSelection(ConvertSelection(text)) == text
  {
    InverseLaw();
    EnToHeKeys();
    if IsHebrew(text) {
      var en := ConvertText(text, HeToEn);
      assert !IsHebrew(en) by {
        forall i | 0 <= i < |en| ensures !InHebrewBlock(en[i]) {
          assert text[i] in EnToHe.Values;
          assert Lower(text[i]) == text[i] by { EnToHeValues(); }
          assert en[i] == HeToEn[text[i]];
          assert en[i] in EnToHe;
        }
      }
      RoundTripFromHebrew(text);
    } else {
      EnToHeValues();
      var he := ConvertText(text, EnToHe);
      forall i | 0 <= i < |text| ensures he[i] == text[i] {
        assert text[i] in EnToHe.Values;
        assert !InHebrewBlock(text[i]);
        assert text[i] == '/' || text[i] == '\'';
      }
      assert he == text;
    }
  }

  /** Mixed text is no toggle either: "a/" holds no Hebrew letter, so it
      becomes "ש/"; that is Hebrew, so converting the result again maps the
      '/' too and gives "aq". */
  lemma ToggleTwiceFailsOnMixedText()
    ensures ConvertSelection("a/") == "ש/"
    ensures ConvertSelection("ש/") == "aq"
  {
    EnToHeKeys();
    EnToHeLookup('a');
    EnToHeLookup('q');
    assert !IsHebrew("a/");
    var he := ConvertText("a/", EnToHe);
    assert he[0] == 'ש' && he[1] == '/';
    assert he == "ש/";
    assert IsHebrew("ש/") by { assert InHebrewBlock("ש/"[0]); }
    var en := ConvertText("ש/", HeToEn);
    assert en[0] == 'a' && en[1] == 'q';
    assert en == "aq";
  }

  /** The selected Hebrew word "שלום" becomes "akuo", and back. */
  lemma ShalomExample()
    ensures ConvertSelection("שלום") == "akuo"
    ensures ConvertSelection("akuo") == "שלום"
  {
    EnToHeLookup('a');
    EnToHeLookup('k');
    EnToHeLookup('u');
    EnToHeLookup('o');
    assert IsHebrew("שלום") by { assert InHebrewBlock("שלום"[0]); }
    var en := ConvertText("שלום", HeToEn);
    assert en[0] == 'a' && en[1] == 'k' && en[2] == 'u' && en[3] == 'o';
    assert en == "akuo";
    assert !IsHebrew("akuo");
    var he := ConvertText("akuo", EnToHe);
    assert he[0] == 'ש' && he[1] == 'ל' && he[2] == 'ו' && he[3] == 'ם';
    assert he == "שלום";
  }
}
