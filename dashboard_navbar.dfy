/**
 * The avatar fallback of the dashboard's navigation bar: the user's
 * initials, taken from the full name in the account metadata.
 *
 * JavaScript's `split(" ")` is modelled exactly, empty parts included.
 * Indexing a string past its end yields `undefined`, which a template
 * literal turns into the text "undefined"; `toUpperCase` is modelled on
 * ASCII letters.
 */
module DashboardNavbar {
  import opened Results
  import opened Sequences

  /** `c.toUpperCase()` for ASCII; every other character is kept. */
  function Upper(c: char): (u: char)
    ensures 'a' <= c <= 'z' ==> u as int == c as int - 32
    ensures !('a' <= c <= 'z') ==> u == c
  {
    if 'a' <= c <= 'z' then (c as int - 32) as char else c
  }

  /** `s.toUpperCase()`, character by character. */
  function ToUpper(s: string): (r: string)
    ensures |r| == |s| && forall i :: 0 <= i < |s| ==> r[i] == Upper(s[i])
  {
    seq(|s|, i requires 0 <= i < |s| => Upper(s[i]))
  }

  /** The parts joined back with single spaces. */
  function Join(parts: seq<string>): string
    requires |parts| >= 1
  {
    if |parts| == 1 then parts[0] else parts[0] + " " + Join(parts[1..])
  }

  /**
   * `s.split(" ")`: the maximal space-free pieces between spaces, empty ones
   * included; the empty string splits into one empty part.
   */
  function Split(s: string): (parts: seq<string>)
    ensures |parts| >= 1
    ensures forall i :: 0 <= i < |parts| ==> ' ' !in parts[i]
  {
    if s == [] then [[]]
    else
      var rest := Split(s[1..]);
      if s[0] == ' ' then [[]] + rest else [[s[0]] + rest[0]] + rest[1..]
  }

  /** Splitting on spaces and joining with spaces gives the name back. */
  lemma {:induction false} JoinSplit(s: string)
    ensures Join(Split(s)) == s
  {
    if s != [] {
      JoinSplit(s[1..]);
      var rest := Split(s[1..]);
      if s[0] == ' ' {
        assert s == [' '] + s[1..];
      } else if |rest| == 1 {
        assert s == [s[0]] + s[1..];
      } else {
        assert Join(rest) == rest[0] + " " + Join(rest[1..]);
        assert s == [s[0]] + s[1..];
      }
    }
  }

  /** No part is empty: the name has no leading, trailing or doubled space. */
  predicate NoEmptyPart(parts: seq<string>) {
    forall i :: 0 <= i < |parts| ==> parts[i] != []
  }

  /** `part[0]` in a template literal: the first character, or "undefined" when there is none. */
  function FirstOrUndefined(part: string): (r: string)
    ensures part != [] ==> r == [part[0]]
    ensures part == [] ==> r == "undefined"
  {
    if part == [] then "undefined" else [part[0]]
  }

  /**
   * `getUserInitials` as written.  A missing or empty full name gives "U".
   * A name of two or more parts gives the first character of the first part
   * and of the last part, a one-part name its first character, upper-cased.
   */
  function GetUserInitials(fullName: Option<string>): (r: string)
    ensures fullName.None? || fullName.value == [] ==> r == "U"
    ensures |r| >= 1
  {
    if fullName.None? || fullName.value == [] then "U"
    else InitialsOf(Split(fullName.value))
  }

  /** The initials `getUserInitials` builds from the parts of a non-empty name. */
  function InitialsOf(parts: seq<string>): (r: string)
    requires |parts| >= 1
    ensures |r| >= 1
  {
    if |parts| >= 2 then ToUpper(FirstOrUndefined(parts[0]) + FirstOrUndefined(parts[|parts| - 1]))
    else ToUpper(FirstOrUndefined(parts[0]))
  }

  /**
   * For a name with no leading, trailing or doubled space, the initials are
   * one or two upper-cased characters: the name's first character, and the
   * first character after its last space when it has one.
   */
  lemma WellSpacedInitials(name: string)
    requires name != [] && NoEmptyPart(Split(name))
    ensures var r := GetUserInitials(Some(name));
      var parts := Split(name);
      1 <= |r| <= 2 && r[0] == Upper(name[0])
      && (|r| == 2 <==> |parts| >= 2)
      && (|r| == 2 ==> r[1] == Upper(parts[|parts| - 1][0]))
  {
    var parts := Split(name);
    JoinSplit(name);
    if |parts| >= 2 {
      assert Join(parts) == parts[0] + " " + Join(parts[1..]);
    }
    assert name[0] == parts[0][0];
  }

  /** A space-free word followed by one space splits into the word and an empty part. */
  lemma {:induction false} SplitTrailingSpace(w: string)
    requires ' ' !in w
    ensures Split(w + " ") == [w, []]
  {
    if w != [] {
      assert (w + " ")[1..] == w[1..] + " ";
      SplitTrailingSpace(w[1..]);
      assert [w[0]] + w[1..] == w;
    }
  }

  /** "undefined" upper-cased. */
  lemma UndefinedUpper()
    ensures ToUpper("undefined") == "UNDEFINED"
  {
    var u := ToUpper("undefined");
    assert u[0] == 'U' && u[1] == 'N' && u[2] == 'D' && u[3] == 'E' && u[4] == 'F';
    assert u[5] == 'I' && u[6] == 'N' && u[7] == 'E' && u[8] == 'D';
  }

  lemma {:induction false} ToUpperAppend(a: string, b: string)
    ensures ToUpper(a + b) == ToUpper(a) + ToUpper(b)
  {
    assert ToUpper(a + b) == ToUpper(a) + ToUpper(b) by {
      assert forall i :: 0 <= i < |a| ==> (a + b)[i] == a[i];
      assert forall i :: |a| <= i < |a| + |b| ==> (a + b)[i] == b[i - |a|];
    }
  }

  /**
   * A trailing space leaves the last part empty, and "undefined" lands in
   * the initials.
   */
  lemma TrailingSpaceShowsUndefined(w: string)
    requires w != [] && ' ' !in w
    ensures GetUserInitials(Some(w + " ")) == [Upper(w[0])] + "UNDEFINED"
  {
    SplitTrailingSpace(w);
    var parts := Split(w + " ");
    assert FirstOrUndefined(parts[0]) == [w[0]];
    assert FirstOrUndefined(parts[1]) == "undefined";
    ToUpperAppend([w[0]], "undefined");
    UndefinedUpper();
  }

  /** The input that shows it: "Ada " gives "AUNDEFINED". */
  lemma AdaWithTrailingSpace()
    ensures GetUserInitials(Some("Ada ")) == "AUNDEFINED"
  {
    var w := "Ada";
    assert w + " " == "Ada ";
    assert Upper(w[0]) == 'A';
    TrailingSpaceShowsUndefined(w);
    assert ['A'] + "UNDEFINED" == "AUNDEFINED";
  }

  /** The non-empty parts of a split, in order. */
  function Words(parts: seq<string>): (w: seq<string>)
    ensures forall p :: p in w <==> p in parts && p != []
    ensures forall i :: 0 <= i < |w| ==> w[i] != []
    ensures |w| <= |parts|
    ensures NoEmptyPart(parts) ==> w == parts
  {
    var w := Filter(parts, (p: string) => p != []);
    assert forall i :: 0 <= i < |w| ==> w[i] in w;
    assert NoEmptyPart(parts) ==> w == parts by {
      if NoEmptyPart(parts) {
        FilterAll(parts, (p: string) => p != []);
      }
    }
    w
  }

  /** Words keeps the order of the parts: it distributes over concatenation. */
  lemma WordsAppend(a: seq<string>, b: seq<string>)
    ensures Words(a + b) == Words(a) + Words(b)
  {
    FilterAppend(a, b, (p: string) => p != []);
  }

  /**
   * `getUserInitials` as evidently intended: the initials of the first and
   * last words, ignoring the empty parts extra spaces make, and "U" when the
   * name has no word at all.
   */
  function GetUserInitialsFixed(fullName: Option<string>): (r: string)
    ensures 1 <= |r| <= 2
    ensures fullName.None? ==> r == "U"
    ensures fullName.Some? ==>
      var words := Words(Split(fullName.value));
      && (words == [] ==> r == "U")
      && (words != [] ==> r[0] == Upper(words[0][0]))
      && (|r| == 2 <==> |words| >= 2)
      && (|r| == 2 ==> r[1] == Upper(words[|words| - 1][0]))
  {
    if fullName.None? then "U" else InitialsOfWords(Words(Split(fullName.value)))
  }

  /** The first word's and the last word's initials, "U" for no word. */
  function InitialsOfWords(words: seq<string>): (r: string)
    requires forall i :: 0 <= i < |words| ==> words[i] != []
    ensures 1 <= |r| <= 2
    ensures words == [] ==> r == "U"
    ensures words != [] ==> r[0] == Upper(words[0][0])
    ensures |r| == 2 <==> |words| >= 2
    ensures |r| == 2 ==> r[1] == Upper(words[|words| - 1][0])
  {
    if |words| == 0 then "U"
    else if |words| >= 2 then ToUpper([words[0][0], words[|words| - 1][0]])
    else ToUpper([words[0][0]])
  }

  /** Every initial of the corrected version is an upper-cased first character of a word of the name. */
  lemma FixedInitialsComeFromWords(name: string)
    ensures var r := GetUserInitialsFixed(Some(name));
      var words := Words(Split(name));
      |words| > 0 ==> forall i :: 0 <= i < |r| ==> exists w :: w in words && r[i] == Upper(w[0])
  {
    var words := Words(Split(name));
    if |words| > 0 {
      InitialsOfWordsComeFromWords(words);
    }
  }

  lemma InitialsOfWordsComeFromWords(words: seq<string>)
    requires |words| > 0 && forall i :: 0 <= i < |words| ==> words[i] != []
    ensures var r := InitialsOfWords(words);
      forall i :: 0 <= i < |r| ==> exists w :: w in words && r[i] == Upper(w[0])
  {
    var r := InitialsOfWords(words);
    assert words[0] in words && r[0] == Upper(words[0][0]);
    if |words| >= 2 {
      assert words[|words| - 1] in words && r[1] == Upper(words[|words| - 1][0]);
    }
  }

  /** On a name with no empty part the corrected version agrees with the code as written. */
  lemma FixedAgreesOnWellSpacedNames(name: string)
    requires name != [] && NoEmptyPart(Split(name))
    ensures GetUserInitialsFixed(Some(name)) == GetUserInitials(Some(name))
  {
    var parts := Split(name);
    assert Words(parts) == parts;
    InitialsAgree(parts);
  }

  lemma InitialsAgree(parts: seq<string>)
    requires |parts| >= 1 && NoEmptyPart(parts)
    ensures InitialsOf(parts) == InitialsOfWords(parts)
  {
    var first := FirstOrUndefined(parts[0]);
    var last := FirstOrUndefined(parts[|parts| - 1]);
    assert first == [parts[0][0]] && last == [parts[|parts| - 1][0]];
    if |parts| >= 2 {
      assert first + last == [parts[0][0], parts[|parts| - 1][0]];
    }
  }

  /** The corrected version ignores the empty part a trailing space makes. */
  lemma FixedTrailingSpace(w: string)
    requires w != [] && ' ' !in w
    ensures GetUserInitialsFixed(Some(w + " ")) == [Upper(w[0])]
  {
    SplitTrailingSpace(w);
    var e: string := [];
    var keep := (p: string) => p != [];
    FilterAll([w], keep);
    assert Filter([e], keep) == [];
    FilterAppend([w], [e], keep);
    assert [w] + [e] == [w, e];
    assert Words([w, e]) == [w];
  }

  /** The corrected version gives "A" where the code as written gives "AUNDEFINED". */
  lemma FixedAda()
    ensures GetUserInitialsFixed(Some("Ada ")) == "A"
  {
    var w := "Ada";
    assert w + " " == "Ada ";
    assert Upper(w[0]) == 'A';
    FixedTrailingSpace(w);
  }
}
