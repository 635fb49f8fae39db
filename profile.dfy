/** Values the server derives for a new user: display initials and an avatar colour. */
module Profile {

  /** `s[0]` appended to a JavaScript string: the first character, or the text
      "undefined" when `s` is empty (indexing past the end yields `undefined`,
      which string concatenation spells out). */
  function FirstForAppend(s: string): string
  {
    if |s| > 0 then [s[0]] else "undefined"
  }

  /** `genInitials`: the first letter of the first name, then that of the middle
      name only when one is given (an empty middle name is falsy), then that of
      the last name. An absent middle name is represented by "". */
  function GenInitials(fName: string, mName: string, lName: string): (r: string)
    ensures fName != [] && lName != [] ==>
              && |r| == (if mName == [] then 2 else 3)
              && r[0] == fName[0]
              && (mName != [] ==> r[1] == mName[0])
              && r[|r| - 1] == lName[0]
    ensures fName == [] ==> |r| >= 10 && r[..9] == "undefined"
    ensures |r| <= 27
  {
    var first := FirstForAppend(fName);
    var middle := if mName != [] then FirstForAppend(mName) else "";
    first + middle + FirstForAppend(lName)
  }

  lemma GenInitialsExamples()
    ensures GenInitials("Billy", "Joe", "Bob") == "BJB"
    ensures GenInitials("Alice", "", "Alphabet") == "AA"
    ensures GenInitials("", "", "Ng") == "undefinedN"
  {
  }

  /** The avatar palette `colors`; registration picks one entry at random. */
  const Colors: seq<string> :=
    [ "black", "dark-gray", "dark-red", "red", "purple", "dark-pink", "dark-green",
      "green", "dark-blue", "navy", "light-gray", "white", "orange", "yellow", "pink",
      "light-pink", "light-green", "blue", "light-blue" ]

  /** The palette has nineteen distinct colours, none longer than eleven characters. */
  lemma PaletteIsNineteenDistinctColours()
    ensures |Colors| == 19
    ensures forall i, j :: 0 <= i < j < |Colors| ==> Colors[i] != Colors[j]
    ensures forall i :: 0 <= i < |Colors| ==> |Colors[i]| <= 11
  {
  }
}
