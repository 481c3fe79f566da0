/** The naming conventions by which the service reads a person's label, and
    whether a file is an image at all, off a file name. Case folding is
    restricted to ASCII. */
module Filenames {
  import opened Wrappers

  /** The character class `[A-Za-z]` of the upload label's pattern. */
  predicate IsAsciiLetter(c: char) {
    'A' <= c <= 'Z' || 'a' <= c <= 'z'
  }

  predicate IsLowerLetter(c: char) {
    'a' <= c <= 'z'
  }

  /** ASCII lower-casing of one character: upper-case letters become lower-case, everything else is kept. */
  function LowerChar(c: char): (d: char)
    ensures IsAsciiLetter(c) ==> IsLowerLetter(d)
    ensures IsLowerLetter(d) ==> IsAsciiLetter(c)
    ensures !('A' <= c <= 'Z') ==> d == c
    ensures 'A' <= c <= 'Z' ==> d as int - 'a' as int == c as int - 'A' as int
  {
    if 'A' <= c <= 'Z' then (c as int - 'A' as int + 'a' as int) as char else c
  }

  /** `str.lower()` on ASCII text: the same length, every upper-case letter
      replaced by its own lower-case form, every other character kept. */
  function Lower(s: string): (lowered: string)
    ensures |lowered| == |s|
    ensures forall i | 0 <= i < |s| :: IsAsciiLetter(s[i]) ==> IsLowerLetter(lowered[i])
    ensures forall i | 0 <= i < |s| :: IsLowerLetter(lowered[i]) ==> IsAsciiLetter(s[i])
    ensures forall i | 0 <= i < |s| :: !('A' <= s[i] <= 'Z') ==> lowered[i] == s[i]
    ensures forall i | 0 <= i < |s| && 'A' <= s[i] <= 'Z' :: lowered[i] as int - 'a' as int == s[i] as int - 'A' as int
  {
    seq(|s|, i requires 0 <= i < |s| => LowerChar(s[i]))
  }

  // ---------------------------------------------------------------------------
  // Upload label: letters before numbers
  // ---------------------------------------------------------------------------

  /** Index of the last '.' in `name`, or -1 when there is none. */
  function LastDot(name: string): (k: int)
    ensures -1 <= k < |name|
    ensures k >= 0 ==> name[k] == '.'
    ensures forall j | k < j < |name| :: name[j] != '.'
  {
    if name == [] then -1
    else if name[|name| - 1] == '.' then |name| - 1
    else LastDot(name[..|name| - 1])
  }

  /** The stem `os.path.splitext` keeps: the name without its extension, cut at the last '.'. */
  function Stem(name: string): (stem: string)
    ensures stem <= name
    ensures |stem| == |name| || name[|stem|] == '.'
    ensures forall j | |stem| < j < |name| :: name[j] != '.'
  {
    var k := LastDot(name);
    if k < 0 then name else name[..k]
  }

  /** What `re.match(r"[A-Za-z]+", s)` matches: the longest run of ASCII
      letters at the start of `s` (empty when the match fails). */
  function LeadingLetters(s: string): (run: string)
    ensures run <= s
    ensures forall i | 0 <= i < |run| :: IsAsciiLetter(run[i])
    ensures |run| == |s| || !IsAsciiLetter(s[|run|])
  {
    if s != [] && IsAsciiLetter(s[0]) then [s[0]] + LeadingLetters(s[1..]) else []
  }

  /** The label of a stem: its leading letters, lower-cased; None where the
      pattern does not match and app.py's `.group(0)` fails. */
  function StemLabel(stem: string): (person: Option<string>)
    ensures person.None? <==> stem == [] || !IsAsciiLetter(stem[0])
    ensures person.Some? ==>
      && person.value != []
      && |person.value| <= |stem|
      && person.value == Lower(stem[..|person.value|])
      && (forall i | 0 <= i < |person.value| :: IsAsciiLetter(stem[i]))
      && (|person.value| == |stem| || !IsAsciiLetter(stem[|person.value|]))
  {
    var run := LeadingLetters(stem);
    assert run == stem[..|run|];
    if run == [] then None else Some(Lower(run))
  }

  /** The person label of a reference upload, derived from its file name;
      when it exists it is a non-empty word of lower-case ASCII letters. */
  function UploadLabel(filename: string): (person: Option<string>)
    ensures person.Some? ==>
      person.value != [] && forall i | 0 <= i < |person.value| :: IsLowerLetter(person.value[i])
  {
    StemLabel(Stem(filename))
  }

  /** Cutting a name at any '.' (or not at all) leaves its leading letters
      unchanged: where exactly the extension starts never matters for the label. */
  lemma {:induction false} LeadingLettersIgnoresCut(s: string, k: nat)
    requires k <= |s|
    requires k == |s| || !IsAsciiLetter(s[k])
    ensures LeadingLetters(s[..k]) == LeadingLetters(s)
  {
    if s != [] && k > 0 {
      assert s[..k][1..] == s[1..][..k - 1];
      LeadingLettersIgnoresCut(s[1..], k - 1);
    }
  }

  /** The upload label is the one read off the whole file name: the extension never changes it. */
  lemma StemChoiceIrrelevant(filename: string, k: nat)
    requires k <= |filename|
    requires k == |filename| || filename[k] == '.'
    ensures UploadLabel(filename) == StemLabel(filename[..k]) == StemLabel(filename)
  {
    LeadingLettersIgnoresCut(filename, k);
    assert Stem(filename) == filename[..|Stem(filename)|];
    LeadingLettersIgnoresCut(filename, |Stem(filename)|);
  }

  /** Derivation fails exactly when the name does not start with an ASCII
      letter, the empty name included. */
  lemma UploadLabelFails(filename: string)
    ensures UploadLabel(filename).None? <==> filename == [] || !IsAsciiLetter(filename[0])
  {
    StemChoiceIrrelevant(filename, |filename|);
    assert filename[..|filename|] == filename;
  }

  /** A derived label is the longest letter run at the start of the file
      name, case-folded: the character after it is not a letter. */
  lemma UploadLabelIsMaximalPrefix(filename: string)
    requires UploadLabel(filename).Some?
    ensures var person := UploadLabel(filename).value;
      && |person| <= |Stem(filename)|
      && person == Lower(filename[..|person|])
      && (forall i | 0 <= i < |person| :: IsAsciiLetter(filename[i]))
      && (|person| == |Stem(filename)| || !IsAsciiLetter(filename[|person|]))
  {
    StemChoiceIrrelevant(filename, |filename|);
    assert filename[..|filename|] == filename;
    var run := LeadingLetters(filename);
    assert run == filename[..|run|];
    var stem := Stem(filename);
    assert LeadingLetters(stem) == run;
    assert stem == filename[..|stem|];
  }

  // ---------------------------------------------------------------------------
  // Folder loading: image-extension filter and `_`-prefix label
  // ---------------------------------------------------------------------------

  const ImageExtensions: set<string> := {".jpg", ".jpeg", ".png"}

  predicate EndsWith(s: string, suffix: string) {
    |suffix| <= |s| && s[|s| - |suffix|..] == suffix
  }

  /** `filename.lower().endswith((".jpg", ".jpeg", ".png"))`: the name is
      accepted exactly when its extension, from the last '.' on and
      case-folded, is one of the image extensions. */
  predicate HasImageExtension(filename: string)
    ensures HasImageExtension(filename) <==> Lower(filename[|Stem(filename)|..]) in ImageExtensions
  {
    ExtensionAtLastDot(filename, ".jpg");
    ExtensionAtLastDot(filename, ".jpeg");
    ExtensionAtLastDot(filename, ".png");
    var lower := Lower(filename);
    EndsWith(lower, ".jpg") || EndsWith(lower, ".jpeg") || EndsWith(lower, ".png")
  }

  lemma LowerSuffix(s: string, k: nat)
    requires k <= |s|
    ensures Lower(s)[k..] == Lower(s[k..])
  {
  }

  /** Case folding keeps '.' and creates no new '.'. */
  lemma LowerKeepsDots(s: string)
    ensures forall i | 0 <= i < |s| :: Lower(s)[i] == '.' <==> s[i] == '.'
  {
  }

  /** A name ends in an image extension, ignoring case, exactly when that
      extension starts at the name's last '.'. */
  lemma ExtensionAtLastDot(filename: string, ext: string)
    requires ext in ImageExtensions
    ensures EndsWith(Lower(filename), ext) <==> Lower(filename[|Stem(filename)|..]) == ext
  {
    var cut := |Stem(filename)|;
    if EndsWith(Lower(filename), ext) {
      var k := |filename| - |ext|;
      SuffixDotIsLast(filename, ext);
      assert cut == k;
      LowerSuffix(filename, k);
    }
    if Lower(filename[cut..]) == ext {
      LowerSuffix(filename, cut);
    }
  }

  /** A name that ends in an image extension, ignoring case, has its last '.'
      where that extension starts. */
  lemma SuffixDotIsLast(filename: string, ext: string)
    requires ext in ImageExtensions
    requires EndsWith(Lower(filename), ext)
    ensures filename[|filename| - |ext|] == '.'
    ensures forall j | |filename| - |ext| < j < |filename| :: filename[j] != '.'
  {
    var lower := Lower(filename);
    var k := |filename| - |ext|;
    assert ext[0] == '.' && forall j | 0 < j < |ext| :: ext[j] != '.';
    LowerKeepsDots(filename);
    assert lower[k] == ext[0];
    forall j | k < j < |filename|
      ensures filename[j] != '.'
    {
      assert lower[j] == ext[j - k];
    }
  }

  /** A file is loaded iff some suffix of its name, case-folded, is one of the image extensions. */
  lemma ImageExtensionIff(filename: string)
    ensures HasImageExtension(filename)
        <==> exists k | 0 <= k <= |filename| :: Lower(filename[k..]) in ImageExtensions
  {
    if HasImageExtension(filename) {
      var k := |Stem(filename)|;
      assert Lower(filename[k..]) in ImageExtensions;
    }
    if k :| 0 <= k <= |filename| && Lower(filename[k..]) in ImageExtensions {
      var ext := Lower(filename[k..]);
      LowerSuffix(filename, k);
      ExtensionAtLastDot(filename, ext);
    }
  }

  /** `s.split(sep)[0]`: the text before the first `sep`, or all of `s` when there is none. */
  function BeforeFirst(s: string, sep: char): (head: string)
    ensures head <= s
    ensures sep !in head
    ensures |head| == |s| || s[|head|] == sep
  {
    if s == [] || s[0] == sep then [] else [s[0]] + BeforeFirst(s[1..], sep)
  }

  /** The person label of a file in the image folder: the case-folded part
      of the name up to, and not including, its first '_' (the whole
      case-folded name when there is none). */
  function FolderLabel(filename: string): (person: string)
    ensures '_' !in person
    ensures |person| <= |filename|
    ensures person == Lower(filename[..|person|])
    ensures |person| == |filename| || filename[|person|] == '_'
  {
    var head := BeforeFirst(filename, '_');
    assert head == filename[..|head|];
    Lower(head)
  }

  /** The stem "Alice12" gives the label "alice". */
  lemma StemLabelExample()
    ensures StemLabel("Alice12") == Some("alice")
  {
    assert LeadingLetters("12") == [];
    assert LeadingLetters("e12") == "e" by { assert "e12"[1..] == "12"; }
    assert LeadingLetters("ce12") == "ce" by { assert "ce12"[1..] == "e12"; }
    assert LeadingLetters("ice12") == "ice" by { assert "ice12"[1..] == "ce12"; }
    assert LeadingLetters("lice12") == "lice" by { assert "lice12"[1..] == "ice12"; }
    assert LeadingLetters("Alice12") == "Alice" by { assert "Alice12"[1..] == "lice12"; }
    assert Lower("Alice") == "alice";
  }

  /** "Alice12.png" uploads under the label "alice". */
  lemma UploadLabelExample()
    ensures UploadLabel("Alice12.png") == Some("alice")
  {
    var name := "Alice12.png";
    StemChoiceIrrelevant(name, 7);
    assert name[..7] == "Alice12";
    StemLabelExample();
  }

  /** "123.png" yields no upload label. */
  lemma NoUploadLabelExample()
    ensures UploadLabel("123.png") == None
  {
    UploadLabelFails("123.png");
  }

  /** "Bob_2.JPG" is an image: its case-folded name ends in ".jpg". */
  lemma ImageFileExample()
    ensures HasImageExtension("Bob_2.JPG")
  {
    assert Lower("Bob_2.JPG")[5..] == ".jpg";
  }

  /** "Bob_2.JPG" loads under the label "bob". */
  lemma FolderLabelExample()
    ensures FolderLabel("Bob_2.JPG") == "bob"
  {
    var name := "Bob_2.JPG";
    assert name[1..] == "ob_2.JPG" && name[1..][1..] == "b_2.JPG" && name[1..][1..][1..] == "_2.JPG";
    assert BeforeFirst(name, '_') == "Bob";
    assert Lower("Bob") == "bob";
  }

  /** "notes.txt" is not an image and is skipped by the folder load. */
  lemma SkippedFileExample()
    ensures !HasImageExtension("notes.txt")
  {
    assert Lower("notes.txt")[5..] == ".txt";
    assert Lower("notes.txt")[4..] == "s.txt";
  }
}
