/**
 * The helpers of the visual-odometry example: `splitByDelim`, which has the
 * semantics of repeated `std::getline`, and the line and field structure of
 * `parseKittiOdometryPosesGT`. Reading the file and parsing numbers with
 * `std::atof` are not modelled: the file contents and an `atof` function are
 * parameters.
 */
module PoseUtils {
  import opened Wrappers

  /** The index of the first `d` in `s`, or `|s|` when there is none. */
  function FirstDelim(s: string, d: char): (q: nat)
    ensures q <= |s| && forall k :: 0 <= k < q ==> s[k] != d
    ensures q < |s| ==> s[q] == d
  {
    if s == [] then 0
    else if s[0] == d then 0
    else 1 + FirstDelim(s[1..], d)
  }

  /** The first delimiter position is the only one with its two properties. */
  lemma FirstDelimUnique(s: string, d: char, q: nat)
    requires q <= |s| && (forall k :: 0 <= k < q ==> s[k] != d) && (q < |s| ==> s[q] == d)
    ensures FirstDelim(s, d) == q
  {
  }

  /**
   * The tokens `std::getline` extracts from `s` one after another: each ends
   * at the next delimiter, which is consumed, and extraction stops at the end
   * of the input, so a trailing delimiter produces no final empty token.
   */
  function Split(s: string, d: char): seq<string>
    decreases |s|
  {
    if s == [] then []
    else
      var q := FirstDelim(s, d);
      if q == |s| then [s] else [s[..q]] + Split(s[q + 1..], d)
  }

  /**
   * `splitByDelim`: a `while (std::getline(ss, token, delimiter))` loop,
   * each call extracting characters up to the next delimiter.
   */
  method SplitByDelim(s: string, delimiter: char) returns (tokens: seq<string>)
    ensures tokens == Split(s, delimiter)
  {
    tokens := [];
    var pos := 0;
    while pos < |s|
      invariant 0 <= pos <= |s|
      invariant tokens + Split(s[pos..], delimiter) == Split(s, delimiter)
    {
      var token, end := GetLine(s, delimiter, pos);
      // the delimiter, if any, is consumed
      var next := if end < |s| then end + 1 else end;
      SplitLoopStep(s, delimiter, tokens, pos, end, next);
      tokens := tokens + [token];
      pos := next;
    }
  }

  /**
   * One `std::getline` call from `start`: the characters up to the first
   * delimiter at `end`, or up to the end of the input.
   */
  method GetLine(s: string, delimiter: char, start: nat) returns (token: string, end: nat)
    requires start <= |s|
    ensures start <= end <= |s| && token == s[start..end]
    ensures (forall k :: start <= k < end ==> s[k] != delimiter) && (end < |s| ==> s[end] == delimiter)
  {
    end := start;
    token := "";
    while end < |s| && s[end] != delimiter
      invariant start <= end <= |s|
      invariant token == s[start..end]
      invariant forall k :: start <= k < end ==> s[k] != delimiter
    {
      token := token + [s[end]];
      end := end + 1;
    }
  }

  /** The loop invariant of SplitByDelim survives one extracted token. */
  lemma SplitLoopStep(s: string, d: char, tokens: seq<string>, start: nat, p: nat, next: nat)
    requires start < |s| && start <= p <= |s| && (p < |s| ==> s[p] == d)
    requires forall k :: start <= k < p ==> s[k] != d
    requires next == if p < |s| then p + 1 else p
    requires tokens + Split(s[start..], d) == Split(s, d)
    ensures (tokens + [s[start..p]]) + Split(s[next..], d) == Split(s, d)
  {
    SplitStep(s, d, start, p, next);
    assert (tokens + [s[start..p]]) + Split(s[next..], d) == tokens + ([s[start..p]] + Split(s[next..], d));
  }

  /**
   * One `std::getline` call: from `start`, the token runs up to the first
   * delimiter at `p`, or to the end of the input.
   */
  lemma SplitStep(s: string, d: char, start: nat, p: nat, next: nat)
    requires start < |s| && start <= p <= |s| && (p < |s| ==> s[p] == d)
    requires forall k :: start <= k < p ==> s[k] != d
    requires next == if p < |s| then p + 1 else p
    ensures Split(s[start..], d) == [s[start..p]] + Split(s[next..], d)
  {
    var rest := s[start..];
    assert rest[..p - start] == s[start..p];
    FirstDelimUnique(rest, d, p - start);
    if p < |s| {
      assert rest[p - start + 1..] == s[p + 1..];
    } else {
      assert rest == s[start..p] && s[next..] == [];
    }
  }

  /** Splitting yields no token exactly when the input is empty. */
  lemma SplitEmptyIff(s: string, d: char)
    ensures Split(s, d) == [] <==> s == []
  {
  }

  /** No token contains the delimiter. */
  lemma {:induction false} SplitTokensFree(s: string, d: char)
    ensures forall t :: t in Split(s, d) ==> d !in t
    decreases |s|
  {
    if s != [] {
      var q := FirstDelim(s, d);
      if q < |s| {
        SplitTokensFree(s[q + 1..], d);
      }
    }
  }

  /** The tokens joined back together with the delimiter between them. */
  function Join(tokens: seq<string>, d: char): string
  {
    if |tokens| == 0 then []
    else if |tokens| == 1 then tokens[0]
    else tokens[0] + [d] + Join(tokens[1..], d)
  }

  /** `s` without one trailing delimiter. */
  function DropTrailing(s: string, d: char): string
  {
    if s != [] && s[|s| - 1] == d then s[..|s| - 1] else s
  }

  /** Joining a token in front of a non-empty token list puts a delimiter between them. */
  lemma JoinCons(t: string, ts: seq<string>, d: char)
    requires ts != []
    ensures Join([t] + ts, d) == t + [d] + Join(ts, d)
  {
    assert ([t] + ts)[1..] == ts;
  }

  /**
   * Splitting a non-empty input: the first token runs to the first delimiter,
   * and the rest of the tokens come from what follows it.
   */
  lemma SplitUnfold(s: string, d: char)
    requires s != [] && FirstDelim(s, d) < |s|
    ensures Split(s, d) == [s[..FirstDelim(s, d)]] + Split(s[FirstDelim(s, d) + 1..], d)
  {
  }

  /** Joining the tokens gives back the input, less one trailing delimiter. */
  lemma {:induction false} SplitJoin(s: string, d: char)
    ensures Join(Split(s, d), d) == DropTrailing(s, d)
    decreases |s|
  {
    if s != [] {
      var q := FirstDelim(s, d);
      if q == |s| {
        assert s[..q] == s;
      } else {
        SplitJoinAtDelim(s, d, q);
      }
    }
  }

  /** The inductive step of SplitJoin, where the first delimiter is at `q`. */
  lemma {:induction false} SplitJoinAtDelim(s: string, d: char, q: nat)
    requires s != [] && q == FirstDelim(s, d) < |s|
    ensures Join(Split(s, d), d) == DropTrailing(s, d)
    decreases |s|, 0
  {
    var rest := s[q + 1..];
    SplitUnfold(s, d);
    SplitEmptyIff(rest, d);
    CutAt(s, q);
    if rest == [] {
      assert Split(s, d) == [s[..q]];
    } else {
      SplitJoin(rest, d);
      JoinCons(s[..q], Split(rest, d), d);
      DropTrailingCons(s[..q], d, rest);
    }
  }

  /** `s` is its part before index `q`, the character at `q`, and its part after. */
  lemma CutAt(s: string, q: nat)
    requires q < |s|
    ensures s == s[..q] + [s[q]] + s[q + 1..]
  {
  }

  /** A trailing delimiter of a non-empty suffix is the trailing delimiter of the whole. */
  lemma DropTrailingCons(a: string, d: char, rest: string)
    requires rest != []
    ensures DropTrailing(a + [d] + rest, d) == a + [d] + DropTrailing(rest, d)
  {
    var s := a + [d] + rest;
    assert s[|s| - 1] == rest[|rest| - 1];
    if rest[|rest| - 1] == d {
      assert s[..|s| - 1] == a + [d] + rest[..|rest| - 1];
    }
  }

  /**
   * The token count is the number of delimiters, plus one when the input is
   * non-empty and does not end with a delimiter.
   */
  lemma {:induction false} SplitCount(s: string, d: char)
    ensures |Split(s, d)| == multiset(s)[d] + (if s != [] && s[|s| - 1] != d then 1 else 0)
    decreases |s|
  {
    if s != [] {
      var q := FirstDelim(s, d);
      if q == |s| {
        assert s[..q] == s;
      } else {
        SplitCountAtDelim(s, d, q);
      }
    }
  }

  /** The inductive step of SplitCount, where the first delimiter is at `q`. */
  lemma {:induction false} SplitCountAtDelim(s: string, d: char, q: nat)
    requires s != [] && q == FirstDelim(s, d) < |s|
    ensures |Split(s, d)| == multiset(s)[d] + (if s[|s| - 1] != d then 1 else 0)
    decreases |s|, 0
  {
    var rest := s[q + 1..];
    SplitUnfold(s, d);
    SplitCount(rest, d);
    CutAt(s, q);
    CountCons(s[..q], d, rest);
  }

  /** Counting delimiters across a delimiter-free part, one delimiter, and a suffix. */
  lemma CountCons(a: string, d: char, rest: string)
    requires d !in a
    ensures multiset(a + [d] + rest)[d] == 1 + multiset(rest)[d]
    ensures (a + [d] + rest)[|a + [d] + rest| - 1] == if rest == [] then d else rest[|rest| - 1]
  {
    assert multiset(a + [d] + rest) == multiset(a) + multiset{d} + multiset(rest);
  }

  /** Consecutive delimiters enclose an empty token. */
  lemma ConsecutiveDelimiters(a: string, b: string, d: char)
    requires d !in a
    ensures Split(a + [d, d] + b, d) == [a, []] + Split(b, d)
  {
    var s := a + [d, d] + b;
    assert s[..|a|] == a && s[0..] == s;
    SplitStep(s, d, 0, |a|, |a| + 1);
    SplitStep(s, d, |a| + 1, |a| + 1, |a| + 2);
    assert s[|a| + 2..] == b;
  }

  /** `cv::Affine3d` built from a 3 by 3 rotation and a 3-vector translation. */
  datatype Pose = Pose(rotation: seq<seq<real>>, translation: seq<real>)

  /** A pose line: exactly 12 space-separated fields. */
  predicate WellFormedLine(line: string)
  {
    |Split(line, ' ')| == 12
  }

  /**
   * The pose one line describes: the first nine values fill the rotation
   * row by row and the remaining three the translation.
   */
  function PoseOf(line: string, atof: string -> real): (p: Pose)
    requires WellFormedLine(line)
    ensures |p.rotation| == 3 && forall r :: 0 <= r < 3 ==> |p.rotation[r]| == 3
    ensures forall r, c :: 0 <= r < 3 && 0 <= c < 3 ==> p.rotation[r][c] == atof(Split(line, ' ')[3 * r + c])
    ensures |p.translation| == 3 && forall t :: 0 <= t < 3 ==> p.translation[t] == atof(Split(line, ' ')[9 + t])
  {
    var values := seq(12, k requires 0 <= k < 12 => atof(Split(line, ' ')[k]));
    Pose([values[0..3], values[3..6], values[6..9]], values[9..])
  }

  datatype Error = EmptyFile

  /**
   * `parseKittiOdometryPosesGT` on the contents of the file: no lines is an
   * error; otherwise one pose per line, in line order.
   */
  method ParseKittiOdometryPosesGT(contents: string, atof: string -> real) returns (r: Result<seq<Pose>, Error>)
    requires forall line :: line in Split(contents, '\n') ==> WellFormedLine(line)
    ensures r.Failure? <==> contents == []
    ensures r.Success? ==>
      var lines := Split(contents, '\n');
      |r.value| == |lines| && forall k :: 0 <= k < |lines| ==> r.value[k] == PoseOf(lines[k], atof)
  {
    var lines := SplitByDelim(contents, '\n');
    SplitEmptyIff(contents, '\n');
    if |lines| == 0 {
      return Failure(EmptyFile);
    }
    var result: seq<Pose> := [];
    var k := 0;
    while k < |lines|
      invariant 0 <= k <= |lines|
      invariant |result| == k
      invariant forall l :: 0 <= l < k ==> result[l] == PoseOf(lines[l], atof)
    {
      assert lines[k] in Split(contents, '\n');
      var strValues := SplitByDelim(lines[k], ' ');
      var values := seq(|strValues|, i requires 0 <= i < |strValues| => atof(strValues[i]));
      var rotationMat := [values[0..3], values[3..6], values[6..9]];
      var translationVec := values[9..];
      assert Pose(rotationMat, translationVec) == PoseOf(lines[k], atof);
      result := result + [Pose(rotationMat, translationVec)];
      k := k + 1;
    }
    return Success(result);
  }
}
