/**
 The peripheral filter (`onPeriphDiscovered`): with a target identity on the
 command line, only a peripheral whose identity equals it up to letter case
 is pursued; the first one pursued stops the scan and is connected.
 */
module Filter {
  import opened Gatt

  /**
   Upper case of one character as strings.ToUpper computes it, for every
   character whose upper case is ASCII: ASCII lower-case letters, dotless
   i (U+0131, upper case 'I') and long s (U+017F, upper case 'S'). Every
   other character is left unchanged.
   */
  function UpperChar(ch: char): char {
    if 'a' <= ch <= 'z' then (ch as int - 32) as char
    else if ch == '\U{0131}' then 'I'
    else if ch == '\U{017F}' then 'S'
    else ch
  }

  /** strings.ToUpper, character by character. */
  function ToUpper(s: string): (r: string)
    ensures |r| == |s|
    ensures forall k :: 0 <= k < |s| ==> r[k] == UpperChar(s[k])
  {
    if |s| == 0 then [] else [UpperChar(s[0])] + ToUpper(s[1..])
  }

  /**
   Two characters that are the same letter up to case: equal, an ASCII
   lower-case letter and its upper-case form, or two of the spellings of i
   (i, I, dotless i) or of s (s, S, long s).
   */
  predicate SameLetter(x: char, y: char) {
    || x == y
    || ('a' <= x <= 'z' && y as int == x as int - 32)
    || ('a' <= y <= 'z' && x as int == y as int - 32)
    || (x in "iI\U{0131}" && y in "iI\U{0131}")
    || (x in "sS\U{017F}" && y in "sS\U{017F}")
  }

  /** Two characters have the same upper case exactly when they are the same letter up to case. */
  lemma UpperCharIffSameLetter(x: char, y: char)
    ensures UpperChar(x) == UpperChar(y) <==> SameLetter(x, y)
  {
  }

  /** Two identities that differ at most in the case of their letters. */
  predicate SameIgnoringCase(a: string, b: string) {
    |a| == |b| && forall k :: 0 <= k < |a| ==> SameLetter(a[k], b[k])
  }

  /** Comparing upper-cased copies is comparing up to letter case, in both directions. */
  lemma UpperEqualIffSameIgnoringCase(a: string, b: string)
    ensures ToUpper(a) == ToUpper(b) <==> SameIgnoringCase(a, b)
  {
    if |a| == |b| {
      forall k | 0 <= k < |a|
        ensures ToUpper(a)[k] == ToUpper(b)[k] <==> SameLetter(a[k], b[k])
      {
        UpperCharIffSameLetter(a[k], b[k]);
      }
      if SameIgnoringCase(a, b) {
        assert forall k :: 0 <= k < |a| ==> ToUpper(a)[k] == ToUpper(b)[k];
      }
    }
  }

  /**
   The calls issued for one discovered peripheral with identity `id`, given the
   positional command-line arguments `args`. A mismatching peripheral is
   ignored; a pursued one first stops the scan, then is connected.
   */
  function OnPeriphDiscovered(args: seq<string>, id: string): (r: seq<Call>)
    ensures r == [] || r == [StopScanning, Connect(id)]
    ensures r != [] <==> |args| == 0 || SameIgnoringCase(args[0], id)
  {
    UpperEqualIffSameIgnoringCase(if |args| == 0 then [] else args[0], id);
    if |args| != 0 && ToUpper(id) != ToUpper(args[0]) then []
    else [StopScanning, Connect(id)]
  }

  /** A dotless i on the command line selects a peripheral whose identity is "I", as strings.ToUpper maps it to 'I'. */
  lemma DotlessIMatchesCapitalI()
    ensures OnPeriphDiscovered(["\U{0131}"], "I") == [StopScanning, Connect("I")]
  {
    assert SameLetter('\U{0131}', 'I');
  }
}
