/** The text drawn above each detection: the colour name passed through
    Python's `str.capitalize`, followed by " detected". */
module Label {
  import opened Colors

  datatype Option<T> = None | Some(value: T)

  /** Text appended to every capitalised colour name. */
  const Suffix: string := " detected"

  predicate IsUpper(c: char) { 'A' <= c <= 'Z' }
  predicate IsLower(c: char) { 'a' <= c <= 'z' }

  function UpperChar(c: char): (u: char)
    ensures !IsLower(u)
  {
    if IsLower(c) then (c as int - 32) as char else c
  }

  function LowerChar(c: char): (l: char)
    ensures !IsUpper(l)
  {
    if IsUpper(c) then (c as int + 32) as char else c
  }

  /** Every character lower-cased. */
  function LowerString(s: string): string {
    seq(|s|, i requires 0 <= i < |s| => LowerChar(s[i]))
  }

  /** No character is an upper-case letter. */
  predicate NoUpper(s: string) {
    forall i :: 0 <= i < |s| ==> !IsUpper(s[i])
  }

  /** `str.capitalize`: the first character upper-cased, every other
      character lower-cased; the empty string stays empty. */
  function Capitalize(s: string): string {
    seq(|s|, i requires 0 <= i < |s| => if i == 0 then UpperChar(s[0]) else LowerChar(s[i]))
  }

  /** The label drawn for a detection of the colour called `name`. */
  function LabelOf(name: string): string {
    Capitalize(name) + Suffix
  }

  /** Recovers the colour name from a label: strips the suffix and lower-cases
      what remains; a text without the suffix is not a label. */
  function NameOf(text: string): Option<string> {
    if |text| >= |Suffix| && text[|text| - |Suffix|..] == Suffix
    then Some(LowerString(text[..|text| - |Suffix|]))
    else None
  }

  /** Capitalising twice is capitalising once. */
  lemma CapitalizeIdempotent(s: string)
    ensures Capitalize(Capitalize(s)) == Capitalize(s)
  {
  }

  /** Capitalisation ignores the case of its input. */
  lemma CapitalizeIgnoresCase(s: string)
    ensures Capitalize(LowerString(s)) == Capitalize(s)
  {
  }

  /** The colour name is recoverable from its label when the name has no
      upper-case letter, which holds for every catalogue name. */
  lemma LabelRoundTrip(name: string)
    requires NoUpper(name)
    ensures NameOf(LabelOf(name)) == Some(name)
  {
    var text := LabelOf(name);
    assert text[..|text| - |Suffix|] == Capitalize(name);
    assert text[|text| - |Suffix|..] == Suffix;
    var back := LowerString(Capitalize(name));
    forall i | 0 <= i < |name|
      ensures back[i] == name[i]
    {
      if i == 0 {
        assert LowerChar(UpperChar(name[0])) == name[0];
      }
    }
    assert back == name;
  }

  /** The label of a non-empty name without upper-case letters is `word`
      followed by the suffix, where `word` is the name with its first
      character upper-cased. */
  lemma LabelFromWord(name: string, word: string)
    requires |name| > 0 && NoUpper(name)
    requires |word| == |name| && word[0] == UpperChar(name[0])
    requires forall k :: 1 <= k < |name| ==> word[k] == name[k]
    ensures LabelOf(name) == word + Suffix
  {
  }

  /** Distinct names without upper-case letters give distinct labels. */
  lemma LabelInjective(a: string, b: string)
    requires NoUpper(a) && NoUpper(b) && a != b
    ensures LabelOf(a) != LabelOf(b)
  {
    LabelRoundTrip(a);
    LabelRoundTrip(b);
  }

  /** The label drawn for red regions. */
  lemma RedLabel()
    ensures LabelOf(Catalog[0].name) == "Red detected"
  {
  }

  /** The label drawn for blue regions. */
  lemma BlueLabel()
    ensures LabelOf(Catalog[1].name) == "Blue detected"
  {
  }

  /** The label drawn for green regions. */
  lemma GreenLabel()
    ensures LabelOf(Catalog[2].name) == "Green detected"
  {
  }

  /** The label drawn for orange regions. */
  lemma OrangeLabel()
    ensures LabelOf(Catalog[3].name) == "Orange detected"
  {
  }

  /** The label drawn for yellow regions. */
  lemma YellowLabel()
    ensures LabelOf(Catalog[4].name) == "Yellow detected"
  {
  }

  /** The label drawn for black regions. */
  lemma BlackLabel()
    ensures LabelOf(Catalog[5].name) == "Black detected"
  {
  }

  /** The label drawn for white regions. */
  lemma WhiteLabel()
    ensures LabelOf(Catalog[6].name) == "White detected"
  {
  }
}
