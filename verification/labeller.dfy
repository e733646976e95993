/**
 * The Labeller: derives a short grouping label from an image file name.  The
 * basename must hold exactly one '.', the part before it is the name; the
 * name is tokenized on each separator in turn and the first tokenization
 * that reaches the wanted number of characters wins; otherwise the label is
 * the name cut to that many characters.
 */
module Labeller {
  import opened Wrappers
  import opened Seqs
  import opened Text

  const MeaningfulDigits: int := 13
  const DefaultSeparators: seq<char> := ['-', '_']

  /** A configured labeller: the wanted label length and the separators, in the order tried. */
  datatype Labeller = Labeller(digits: int, separators: seq<char>)

  const Default := Labeller(MeaningfulDigits, DefaultSeparators)

  /** The `ValueError` raised when the basename does not unpack into name and extension. */
  datatype Error = NotOneDot(basename: string)

  /** POSIX `os.path.basename`: the text after the last '/'. */
  function Basename(path: string): (b: string)
    ensures '/' !in b
    ensures |b| <= |path| && path[|path| - |b|..] == b
    ensures |b| < |path| ==> path[|path| - |b| - 1] == '/'
  {
    path[RFind(path, '/') + 1..]
  }

  /** A path whose last '/' precedes `base` has `base` as its basename. */
  lemma BasenameAfterSlash(dir: string, base: string)
    requires '/' !in base
    ensures Basename(dir + ['/'] + base) == base
  {
    var p := dir + ['/'] + base;
    assert p[|dir|] == '/';
  }

  /** `name, _ = basename(path).split('.')`: the part before the one and only dot. */
  function Stem(path: string): (r: Result<string, Error>)
    ensures r.Failure? <==> Count(Basename(path), '.') != 1
    ensures r.Success? ==>
              var b := Basename(path);
              && '.' !in r.value
              && |r.value| < |b|
              && b[..|r.value|] == r.value
              && b[|r.value|] == '.'
  {
    var b := Basename(path);
    var parts := Split(b, '.');
    if |parts| != 2 then Failure(NotOneDot(b))
    else
      SplitInTwo(b, '.');
      Success(parts[0])
  }

  /** The loop of `_tokenize`: append tokens until the label reaches `digits` characters. */
  function Accumulate(acc: string, tokens: seq<string>, digits: int): (r: Option<string>)
    ensures r.Some? ==> |r.value| >= digits && acc <= r.value
    decreases |tokens|
  {
    if |tokens| == 0 then None
    else
      var joined := acc + tokens[0];
      if |joined| >= digits then Some(joined) else Accumulate(joined, tokens[1..], digits)
  }

  /** Accumulation yields nothing exactly when there are no tokens or even all of them fall short. */
  lemma {:induction false} AccumulateFallsShort(acc: string, tokens: seq<string>, digits: int)
    ensures Accumulate(acc, tokens, digits).None? <==> (|tokens| == 0 || |acc + Concat(tokens)| < digits)
    decreases |tokens|
  {
    if |tokens| > 0 {
      var joined := acc + tokens[0];
      assert acc + Concat(tokens) == joined + Concat(tokens[1..]);
      if |joined| < digits {
        AccumulateFallsShort(joined, tokens[1..], digits);
      }
    }
  }

  /** Joining the first `j` tokens onto `acc` is joining the next `j - 1` onto `acc + tokens[0]`. */
  lemma ConcatShift(acc: string, tokens: seq<string>, j: nat)
    requires 1 <= j <= |tokens|
    ensures acc + Concat(tokens[..j]) == (acc + tokens[0]) + Concat(tokens[1..][..j - 1])
  {
    assert tokens[..j][1..] == tokens[1..][..j - 1];
    assert Concat(tokens[..j]) == tokens[0] + Concat(tokens[..j][1..]);
  }

  /**
   * When accumulation yields, it stops at the least number of whole tokens
   * whose joined length reaches `digits`.
   */
  lemma {:induction false} AccumulateStopsAtFirstReach(acc: string, tokens: seq<string>, digits: int)
    ensures Accumulate(acc, tokens, digits).Some? ==>
              exists k :: 1 <= k <= |tokens|
                && Accumulate(acc, tokens, digits).value == acc + Concat(tokens[..k])
                && digits <= |acc + Concat(tokens[..k])|
                && forall j :: 1 <= j < k ==> |acc + Concat(tokens[..j])| < digits
    decreases |tokens|
  {
    if |tokens| > 0 {
      var joined := acc + tokens[0];
      ConcatShift(acc, tokens, 1);
      assert tokens[1..][..0] == [];
      if |joined| >= digits {
        assert Accumulate(acc, tokens, digits).value == acc + Concat(tokens[..1]);
      } else if Accumulate(joined, tokens[1..], digits).Some? {
        AccumulateStopsAtFirstReach(joined, tokens[1..], digits);
        var k' :| 1 <= k' <= |tokens[1..]|
              && Accumulate(joined, tokens[1..], digits).value == joined + Concat(tokens[1..][..k'])
              && digits <= |joined + Concat(tokens[1..][..k'])|
              && forall j :: 1 <= j < k' ==> |joined + Concat(tokens[1..][..j])| < digits;
        var k := k' + 1;
        ConcatShift(acc, tokens, k);
        assert Accumulate(acc, tokens, digits) == Accumulate(joined, tokens[1..], digits);
        forall j | 1 <= j < k
          ensures |acc + Concat(tokens[..j])| < digits
        {
          ConcatShift(acc, tokens, j);
        }
        assert Accumulate(acc, tokens, digits).value == acc + Concat(tokens[..k]);
      }
    }
  }

  /**
   * `_tokenize`: with the separator present, the concatenation of the fewest
   * leading tokens that reach `digits` characters; otherwise nothing.
   */
  function Tokenize(name: string, sep: char, digits: int): (r: Option<string>)
    ensures r.Some? <==> Count(name, sep) > 0 && |name| - Count(name, sep) >= digits
    ensures r.Some? ==>
              var tokens := Split(name, sep);
              exists k :: 1 <= k <= |tokens|
                && r.value == Concat(tokens[..k])
                && digits <= |Concat(tokens[..k])|
                && forall j :: 1 <= j < k ==> |Concat(tokens[..j])| < digits
  {
    if Count(name, sep) > 0 then
      var tokens := Split(name, sep);
      AccumulateFallsShort([], tokens, digits);
      AccumulateStopsAtFirstReach([], tokens, digits);
      SplitConcatLength(name, sep);
      assert forall t: string :: [] + t == t;
      Accumulate([], tokens, digits)
    else None
  }

  /** Python truthiness of a `_tokenize` result: a label that exists and is not empty. */
  predicate Yields(name: string, sep: char, digits: int)
  {
    var t := Tokenize(name, sep, digits);
    t.Some? && t.value != []
  }

  /** The position of the first separator whose tokenization yields, or `|separators|` when none does. */
  function FirstYielding(name: string, separators: seq<char>, digits: int): (k: nat)
    ensures k <= |separators|
    ensures k < |separators| ==> Yields(name, separators[k], digits)
    ensures forall j :: 0 <= j < k ==> !Yields(name, separators[j], digits)
    decreases |separators|
  {
    if |separators| == 0 then 0
    else if Yields(name, separators[0], digits) then 0
    else
      var tail := separators[1..];
      var k := FirstYielding(name, tail, digits);
      assert k < |tail| ==> separators[k + 1] == tail[k];
      assert forall j :: 1 <= j <= k ==> separators[j] == tail[j - 1];
      k + 1
  }

  /**
   * The separator loop of `__call__`: tokenize with each separator in turn
   * and stop at the first that yields; nothing when none does.
   */
  function FirstTokenization(name: string, separators: seq<char>, digits: int): (r: Option<string>)
    ensures var k := FirstYielding(name, separators, digits);
            && (r.None? <==> k == |separators|)
            && (r.Some? ==> k < |separators| && r == Tokenize(name, separators[k], digits))
    decreases |separators|
  {
    if |separators| == 0 then None
    else if Yields(name, separators[0], digits) then Tokenize(name, separators[0], digits)
    else
      var r := FirstTokenization(name, separators[1..], digits);
      assert FirstYielding(name, separators, digits) == FirstYielding(name, separators[1..], digits) + 1;
      r
  }

  /**
   * `Labeller.__call__`: fails unless the basename has exactly one '.', and
   * otherwise labels the part before it by the first yielding separator or,
   * failing all, by its first `digits` characters.
   */
  function Label(l: Labeller, path: string): (r: Result<string, Error>)
    ensures r.Failure? <==> Count(Basename(path), '.') != 1
    ensures r.Success? ==>
              var name := Stem(path).value;
              var k := FirstYielding(name, l.separators, l.digits);
              && (k < |l.separators| ==> Tokenize(name, l.separators[k], l.digits) == Some(r.value))
              && (k == |l.separators| ==> r.value == Slice(name, 0, l.digits))
  {
    match Stem(path)
    case Failure(e) => Failure(e)
    case Success(name) =>
      var found := FirstTokenization(name, l.separators, l.digits);
      if found.Some? then Success(found.value) else Success(Slice(name, 0, l.digits))
  }
}
