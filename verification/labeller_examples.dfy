/** Worked examples of the Labeller, from its docstring and the test suite. */
module LabellerExamples {
  import opened Wrappers
  import opened Text
  import opened Labeller

  /** A basename `name.ext` with no other dot has stem `name`. */
  lemma StemOf(dir: string, name: string, ext: string)
    requires '/' !in name && '/' !in ext
    requires '.' !in name && '.' !in ext
    ensures Stem(dir + ['/'] + name + ['.'] + ext) == Success(name)
  {
    var base := name + ['.'] + ext;
    assert dir + ['/'] + name + ['.'] + ext == dir + ['/'] + base;
    BasenameAfterSlash(dir, base);
    SplitCons(name, '.', ext);
    SplitNoSeparator(ext, '.');
  }

  /** A stem on which some separator yields is labelled by the first such tokenization. */
  lemma LabelFromTokens(l: Labeller, dir: string, name: string, ext: string, expected: string)
    requires '/' !in name && '/' !in ext && '.' !in name && '.' !in ext
    requires FirstTokenization(name, l.separators, l.digits) == Some(expected)
    ensures Label(l, dir + "/" + name + "." + ext) == Success(expected)
  {
    StemOf(dir, name, ext);
  }

  /**
   * A stem no separator tokenizes and no longer than `digits` is its own
   * label.
   */
  lemma LabelFallsBackToStem(l: Labeller, dir: string, name: string, ext: string)
    requires '/' !in name && '/' !in ext && '.' !in name && '.' !in ext
    requires FirstTokenization(name, l.separators, l.digits) == None
    requires |name| <= l.digits
    ensures Label(l, dir + "/" + name + "." + ext) == Success(name)
  {
    var path := dir + "/" + name + "." + ext;
    StemOf(dir, name, ext);
    var r := Label(l, path);
    assert r.Success?;
    assert FirstYielding(name, l.separators, l.digits) == |l.separators|;
    assert r.value == Slice(name, 0, l.digits);
    assert Slice(name, 0, l.digits) == name[..|name|] == name;
  }

  /** A character other than the separator that no piece holds is absent from the joined text. */
  lemma {:induction false} JoinAvoids(parts: seq<string>, sep: char, c: char)
    requires |parts| > 0 && c != sep
    requires forall i :: 0 <= i < |parts| ==> c !in parts[i]
    ensures c !in Join(parts, sep)
    decreases |parts|
  {
    if |parts| > 1 {
      JoinAvoids(parts[1..], sep, c);
    }
  }

  /** Tokenizing dash-joined pieces accumulates exactly those pieces. */
  lemma TokenizeJoined(parts: seq<string>, digits: int)
    requires |parts| >= 2
    requires forall i :: 0 <= i < |parts| ==> '-' !in parts[i]
    ensures Tokenize(Join(parts, '-'), '-', digits) == Accumulate([], parts, digits)
  {
    SplitJoin(parts, '-');
  }

  /** Accumulation over tokens `a, b, c, ...` stops at `a + b + c` when that first reaches `digits`. */
  lemma AccumulateThree(tokens: seq<string>, digits: int)
    requires |tokens| >= 3
    requires |tokens[0] + tokens[1]| < digits <= |tokens[0] + tokens[1] + tokens[2]|
    ensures Accumulate([], tokens, digits) == Some(tokens[0] + tokens[1] + tokens[2])
  {
    assert [] + tokens[0] == tokens[0];
    assert tokens[1..][0] == tokens[1] && tokens[1..][1..][0] == tokens[2];
    assert Accumulate(tokens[0] + tokens[1], tokens[1..][1..], digits) == Some(tokens[0] + tokens[1] + tokens[2]);
    assert Accumulate(tokens[0], tokens[1..], digits) == Some(tokens[0] + tokens[1] + tokens[2]);
  }

  /** Accumulation over tokens `a, b, c, d, ...` stops at `a + b + c + d` when that first reaches `digits`. */
  lemma AccumulateFour(tokens: seq<string>, digits: int)
    requires |tokens| >= 4
    requires |tokens[0] + tokens[1] + tokens[2]| < digits <= |tokens[0] + tokens[1] + tokens[2] + tokens[3]|
    ensures Accumulate([], tokens, digits) == Some(tokens[0] + tokens[1] + tokens[2] + tokens[3])
  {
    var t := tokens[1..][1..][1..];
    assert t[0] == tokens[3];
    assert Accumulate(tokens[0] + tokens[1] + tokens[2], t, digits) == Some(tokens[0] + tokens[1] + tokens[2] + tokens[3]);
    assert tokens[1..][1..][0] == tokens[2];
    assert Accumulate(tokens[0] + tokens[1], tokens[1..][1..], digits) == Some(tokens[0] + tokens[1] + tokens[2] + tokens[3]);
    assert tokens[1..][0] == tokens[1];
    assert Accumulate(tokens[0], tokens[1..], digits) == Some(tokens[0] + tokens[1] + tokens[2] + tokens[3]);
    assert [] + tokens[0] == tokens[0];
  }

  /**
   * The docstring example `resources/109-602-3906-001-c-suit-veletta-albino.jpg`:
   * with `digits=10` the label is the first three dash tokens.
   */
  lemma DocstringExample()
    ensures Label(Labeller(10, DefaultSeparators),
                  "resources" + "/" + Join(["109", "602", "3906", "001", "c", "suit", "veletta", "albino"], '-') + "." + "jpg")
            == Success("109" + "602" + "3906")
  {
    var parts := ["109", "602", "3906", "001", "c", "suit", "veletta", "albino"];
    TaggedThree(Labeller(10, DefaultSeparators), "resources", parts, "jpg");
  }

  /** With the default 13 digits, `scans/109-602-3906-001-c.jpg` stops after the fourth token. */
  lemma ThirteenDigitsExample()
    ensures Label(Default, "scans" + "/" + Join(["109", "602", "3906", "001", "c"], '-') + "." + "jpg")
            == Success("109" + "602" + "3906" + "001")
  {
    var parts := ["109", "602", "3906", "001", "c"];
    TaggedFour(Default, "scans", parts, "jpg");
  }

  /** A tagged file whose third dash token first reaches `digits` is labelled by the first three tokens. */
  lemma TaggedThree(l: Labeller, dir: string, parts: seq<string>, ext: string)
    requires |parts| >= 3 && |l.separators| > 0 && l.separators[0] == '-'
    requires forall i :: 0 <= i < |parts| ==> '-' !in parts[i] && '/' !in parts[i] && '.' !in parts[i]
    requires '/' !in ext && '.' !in ext
    requires |parts[0] + parts[1]| < l.digits <= |parts[0] + parts[1] + parts[2]|
    ensures Label(l, dir + "/" + Join(parts, '-') + "." + ext) == Success(parts[0] + parts[1] + parts[2])
  {
    AccumulateThree(parts, l.digits);
    TaggedExample(l, dir, parts, ext);
  }

  /** A tagged file whose fourth dash token first reaches `digits` is labelled by the first four tokens. */
  lemma TaggedFour(l: Labeller, dir: string, parts: seq<string>, ext: string)
    requires |parts| >= 4 && |l.separators| > 0 && l.separators[0] == '-'
    requires forall i :: 0 <= i < |parts| ==> '-' !in parts[i] && '/' !in parts[i] && '.' !in parts[i]
    requires '/' !in ext && '.' !in ext
    requires |parts[0] + parts[1] + parts[2]| < l.digits <= |parts[0] + parts[1] + parts[2] + parts[3]|
    ensures Label(l, dir + "/" + Join(parts, '-') + "." + ext) == Success(parts[0] + parts[1] + parts[2] + parts[3])
  {
    AccumulateFour(parts, l.digits);
    TaggedExample(l, dir, parts, ext);
  }

  /**
   * A file whose stem is dash-joined pieces free of '/' and '.' is labelled
   * by accumulating those pieces, when that yields and dashes come first.
   */
  lemma TaggedExample(l: Labeller, dir: string, parts: seq<string>, ext: string)
    requires |parts| >= 2 && |l.separators| > 0 && l.separators[0] == '-'
    requires forall i :: 0 <= i < |parts| ==> '-' !in parts[i] && '/' !in parts[i] && '.' !in parts[i]
    requires '/' !in ext && '.' !in ext
    requires var t := Accumulate([], parts, l.digits); t.Some? && t.value != []
    ensures Label(l, dir + "/" + Join(parts, '-') + "." + ext) == Success(Accumulate([], parts, l.digits).value)
  {
    var name := Join(parts, '-');
    JoinAvoids(parts, '-', '/');
    JoinAvoids(parts, '-', '.');
    TokenizeJoined(parts, l.digits);
    assert Yields(name, l.separators[0], l.digits);
    LabelFromTokens(l, dir, name, ext, Accumulate([], parts, l.digits).value);
  }

  /** A name with no separator falls back to its prefix: `resources/bag.png` is labelled `bag`. */
  lemma NoSeparatorExample()
    ensures Label(Default, "resources" + "/" + "bag" + "." + "png") == Success("bag")
  {
    NoTokens();
    LabelFallsBackToStem(Default, "resources", "bag", "png");
  }

  lemma NoTokens()
    ensures FirstTokenization("bag", DefaultSeparators, 13) == None
  {
    assert !Yields("bag", '-', 13);
    assert !Yields("bag", '_', 13);
  }
}
