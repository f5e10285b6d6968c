/**
 * The hand-written string helpers of StringImplementations, and the three helpers the
 * code calls on it whose bodies are not part of this model (CustomCompare,
 * IsNullOrWhiteSpace, Length), given here by their evident meaning.
 */
module StringImplementations {
  import opened Wrappers
  import opened Numerals
  import Wire

  // ---- helpers called by the code, modelled by their meaning ----

  /** Ordinal comparison: negative, zero or positive; zero exactly for equal strings. */
  function CustomCompare(a: string, b: string): (r: int)
    ensures -1 <= r <= 1
    ensures r == 0 <==> a == b
  {
    if a == [] && b == [] then 0
    else if a == [] then -1
    else if b == [] then 1
    else if a[0] < b[0] then -1
    else if a[0] > b[0] then 1
    else
      var r := CustomCompare(a[1..], b[1..]);
      assert a == [a[0]] + a[1..] && b == [b[0]] + b[1..];
      r
  }

  /** The characters .NET's char.IsWhiteSpace accepts. */
  predicate IsWhiteSpace(c: char) {
    ('\t' <= c <= '\r') || c == ' ' || c == '\U{85}' || c == '\U{A0}' || c == '\U{1680}'
    || ('\U{2000}' <= c <= '\U{200A}') || c == '\U{2028}' || c == '\U{2029}'
    || c == '\U{202F}' || c == '\U{205F}' || c == '\U{3000}'
  }

  /** Empty or all white space (strings are never null in this model). */
  predicate IsNullOrWhiteSpace(s: string) {
    forall i :: 0 <= i < |s| ==> IsWhiteSpace(s[i])
  }

  function Length(s: string): nat {
    |s|
  }

  // ---- IndexOf ----

  method IndexOf(input: string, character: char) returns (r: int)
    ensures -1 <= r < |input|
    ensures r >= 0 ==> input[r] == character && character !in input[..r]
    ensures r == -1 <==> character !in input
  {
    var i := 0;
    while i < |input|
      invariant 0 <= i <= |input|
      invariant character !in input[..i]
    {
      if input[i] == character {
        return i;
      }
      assert input[..i + 1] == input[..i] + [input[i]];
      i := i + 1;
    }
    assert input[..i] == input;
    return -1;
  }

  // ---- Substring ----

  /**
   * Substring fills a char array of `length` from input[start + i]: it throws for a
   * negative length, and for any out-of-range read, which only happens when length > 0.
   */
  predicate SubstringThrows(input: string, start: int, length: int) {
    length < 0 || (length > 0 && (start < 0 || start + length > |input|))
  }

  method Substring(input: string, start: int, length: int) returns (r: Option<string>)
    ensures r.None? <==> SubstringThrows(input, start, length)
    ensures r.Some? ==> r.value == if length == 0 then "" else input[start..start + length]
    ensures 0 <= start <= start + length <= |input| ==> r == Some(input[start..start + length])
  {
    if length < 0 {
      return None;
    }
    var result := new char[length];
    var i := 0;
    while i < length
      invariant 0 <= i <= length
      invariant i > 0 ==> 0 <= start && start + i <= |input|
      invariant forall k :: 0 <= k < i ==> result[k] == input[start + k]
    {
      if start + i < 0 || start + i >= |input| {
        return None;
      }
      result[i] := input[start + i];
      i := i + 1;
    }
    assert 0 <= start && start + length <= |input| ==> result[..] == input[start..start + length];
    r := Some(result[..]);
  }

  // ---- Split ----

  /** Occurrences of d in s. */
  function CountOf(s: string, d: char): (n: nat)
    ensures n <= |s|
  {
    if s == [] then 0 else CountOf(s[..|s| - 1], d) + (if s[|s| - 1] == d then 1 else 0)
  }

  /**
   * Split's reference definition, one character at a time: a delimiter closes the current
   * part and opens an empty one, any other character extends the current part.
   */
  function SplitSpec(s: string, d: char): (r: seq<string>)
    ensures |r| >= 1
  {
    if s == [] then [""]
    else
      var p := SplitSpec(s[..|s| - 1], d);
      if s[|s| - 1] == d then p + [""] else ExtendLast(p, [s[|s| - 1]])
  }

  /** The parts with x added to the end of the last one. */
  function ExtendLast(p: seq<string>, x: string): (r: seq<string>)
    requires |p| >= 1
    ensures |r| == |p| && r[..|r| - 1] == p[..|p| - 1] && r[|r| - 1] == p[|p| - 1] + x
  {
    p[..|p| - 1] + [p[|p| - 1] + x]
  }

  /** The parts put back together with the delimiter between them. */
  function Join(parts: seq<string>, d: char): string
    requires |parts| >= 1
  {
    if |parts| == 1 then parts[0] else Join(parts[..|parts| - 1], d) + [d] + parts[|parts| - 1]
  }

  lemma {:induction false} CountOfPrefix(s: string, d: char, i: nat)
    requires i <= |s|
    ensures CountOf(s[..i], d) <= CountOf(s, d)
    decreases |s| - i
  {
    if i < |s| {
      CountOfPrefix(s, d, i + 1);
      assert s[..i + 1][..i] == s[..i];
    } else {
      assert s[..i] == s;
    }
  }

  /** Split yields one part more than there are delimiters; "" gives [""]. */
  lemma {:induction false} SplitCount(s: string, d: char)
    ensures |SplitSpec(s, d)| == CountOf(s, d) + 1
  {
    if s != [] {
      SplitCount(s[..|s| - 1], d);
    }
  }

  /** No part contains the delimiter. */
  lemma {:induction false} SplitNoDelimiter(s: string, d: char)
    ensures forall k :: 0 <= k < |SplitSpec(s, d)| ==> d !in SplitSpec(s, d)[k]
  {
    if s != [] {
      SplitNoDelimiter(s[..|s| - 1], d);
    }
  }

  /** Joining the parts with the delimiter gives back the input. */
  lemma {:induction false} SplitJoin(s: string, d: char)
    ensures Join(SplitSpec(s, d), d) == s
  {
    if s != [] {
      var t := s[..|s| - 1];
      var c := s[|s| - 1];
      SplitJoin(t, d);
      var p := SplitSpec(t, d);
      assert s == t + [c];
      SplitSnoc(t, c, d);
      if c == d {
        assert (p + [""])[..|p|] == p;
      } else {
        JoinExtendLast(p, [c], d);
      }
      assert s == t + [c];
    }
  }

  lemma {:induction false} JoinExtendLast(p: seq<string>, x: string, d: char)
    requires |p| >= 1
    ensures Join(ExtendLast(p, x), d) == Join(p, d) + x
  {
    var q := ExtendLast(p, x);
    if |p| > 1 {
      assert Join(q, d) == Join(p[..|p| - 1], d) + [d] + (p[|p| - 1] + x);
    }
  }

  /** SplitSpec of t + [c], in terms of SplitSpec of t. */
  lemma {:induction false} SplitSnoc(t: string, c: char, d: char)
    ensures SplitSpec(t + [c], d) == if c == d then SplitSpec(t, d) + [""] else ExtendLast(SplitSpec(t, d), [c])
  {
    assert (t + [c])[..|t|] == t;
  }

  /** Appending delimiter-free text only extends the last part. */
  lemma {:induction false} SplitExtendLast(a: string, x: string, d: char)
    requires d !in x
    ensures SplitSpec(a + x, d) == ExtendLast(SplitSpec(a, d), x)
    decreases |x|
  {
    var p := SplitSpec(a, d);
    if x == [] {
      assert a + x == a;
      assert p[|p| - 1] + x == p[|p| - 1];
      SameInitLast(ExtendLast(p, x), p);
    } else {
      var y, c := x[..|x| - 1], x[|x| - 1];
      assert x == y + [c];
      assert a + y + [c] == a + x;
      assert c in x;
      SplitExtendLast(a, y, d);
      SplitSnoc(a + y, c, d);
      ExtendLastTwice(p, y, c);
    }
  }

  lemma {:induction false} ExtendLastTwice(p: seq<string>, y: string, c: char)
    requires |p| >= 1
    ensures ExtendLast(ExtendLast(p, y), [c]) == ExtendLast(p, y + [c])
  {
    var u := ExtendLast(ExtendLast(p, y), [c]);
    var v := ExtendLast(p, y + [c]);
    assert u[|u| - 1] == v[|v| - 1];
    SameInitLast(u, v);
  }

  lemma {:induction false} ExtendLastAppend(q: seq<string>, w: string, x: string)
    ensures ExtendLast(q + [w], x) == q + [w + x]
  {
    var u := ExtendLast(q + [w], x);
    assert u[..|u| - 1] == (q + [w])[..|q|] == q;
    SameInitLast(u, q + [w + x]);
  }

  /** Two non-empty sequences with the same front and the same last element are equal. */
  lemma {:induction false} SameInitLast<T>(u: seq<T>, v: seq<T>)
    requires |u| == |v| >= 1 && u[..|u| - 1] == v[..|v| - 1] && u[|u| - 1] == v[|v| - 1]
    ensures u == v
  {
    assert u == u[..|u| - 1] + [u[|u| - 1]];
    assert v == v[..|v| - 1] + [v[|v| - 1]];
  }

  /** Conversely, splitting a join of delimiter-free parts gives the parts back. */
  lemma {:induction false} JoinSplit(parts: seq<string>, d: char)
    requires |parts| >= 1
    requires forall k :: 0 <= k < |parts| ==> d !in parts[k]
    ensures SplitSpec(Join(parts, d), d) == parts
  {
    if |parts| == 1 {
      assert [] + parts[0] == parts[0];
      SplitExtendLast([], parts[0], d);
    } else {
      var init, x := parts[..|parts| - 1], parts[|parts| - 1];
      var j := Join(init, d);
      assert parts == init + [x];
      assert "" + x == x;
      assert Join(parts, d) == j + [d] + x;
      JoinSplit(init, d);
      SplitSnoc(j, d, d);
      SplitExtendLast(j + [d], x, d);
      ExtendLastAppend(init, "", x);
    }
  }

  /**
   * Split: a first pass counts the delimiters to size the result, a second pass cuts
   * the input at each delimiter with Substring; the last part runs to the end.
   */
  method Split(input: string, delimiter: char) returns (result: seq<string>)
    ensures result == SplitSpec(input, delimiter)
  {
    var partsCount := CountDelimiters(input, delimiter);
    partsCount := partsCount + 1;
    result := CutParts(input, delimiter, partsCount);
  }

  /** Split's first pass: the number of delimiters in the input. */
  method CountDelimiters(input: string, delimiter: char) returns (n: int)
    ensures n == CountOf(input, delimiter)
  {
    n := 0;
    var i := 0;
    while i < |input|
      invariant 0 <= i <= |input|
      invariant n == CountOf(input[..i], delimiter)
    {
      CountStep(input, delimiter, i);
      if input[i] == delimiter {
        n := n + 1;
      }
      i := i + 1;
    }
    assert input[..i] == input;
  }

  /**
   * Split's second pass, filling a result array of partsCount slots: every delimiter ends
   * a part, which never runs past the array, and the last part fills its final slot.
   */
  method CutParts(input: string, delimiter: char, partsCount: int) returns (result: seq<string>)
    requires partsCount == CountOf(input, delimiter) + 1
    ensures result == SplitSpec(input, delimiter) && |result| == partsCount
  {
    result := [];
    var startIndex := 0;
    var i := 0;
    while i < |input|
      invariant 0 <= i <= |input|
      invariant startIndex == PartStart(input, delimiter, i)
      invariant result == PartsBefore(input, delimiter, i)
      invariant |result| < partsCount
    {
      PartsBeforeBound(input, delimiter, i + 1);
      if input[i] == delimiter {
        var part := Substring(input, startIndex, i - startIndex);
        result := result + [part.value];
        startIndex := i + 1;
      }
      i := i + 1;
    }
    PartsBeforeEnd(input, delimiter);
    var last := Substring(input, startIndex, |input| - startIndex);
    assert last.value == input[startIndex..];
    result := result + [last.value];
  }

  /** At the end of the scan, the completed parts and the rest of the input are the split. */
  lemma {:induction false} PartsBeforeEnd(s: string, d: char)
    ensures PartsBefore(s, d, |s|) + [s[PartStart(s, d, |s|)..]] == SplitSpec(s, d)
    ensures |PartsBefore(s, d, |s|)| == CountOf(s, d)
  {
    PartsBeforeSplit(s, d, |s|);
    assert s[..|s|] == s;
    SplitCount(s, d);
  }

  /** Where the part that Split's second loop is scanning at position i starts. */
  function PartStart(s: string, d: char, i: nat): (r: nat)
    requires i <= |s|
    ensures r <= i
  {
    if i == 0 then 0 else if s[i - 1] == d then i else PartStart(s, d, i - 1)
  }

  /** The parts Split's second loop has completed before position i. */
  function PartsBefore(s: string, d: char, i: nat): seq<string>
    requires i <= |s|
  {
    if i == 0 then []
    else if s[i - 1] == d then PartsBefore(s, d, i - 1) + [s[PartStart(s, d, i - 1)..i - 1]]
    else PartsBefore(s, d, i - 1)
  }

  /** The loop state at i: the completed parts and the open one are the split of s[..i]. */
  lemma {:induction false} PartsBeforeSplit(s: string, d: char, i: nat)
    requires i <= |s|
    ensures PartsBefore(s, d, i) + [s[PartStart(s, d, i)..i]] == SplitSpec(s[..i], d)
  {
    if i > 0 {
      var j := i - 1;
      var start, done := PartStart(s, d, j), PartsBefore(s, d, j);
      if s[j] == d {
        assert s[i..i] == "";
        assert PartsBefore(s, d, i) + [s[PartStart(s, d, i)..i]] == done + [s[start..j]] + [""];
        PartsBeforeSplit(s, d, j);
        SplitStep(s, d, j);
      } else {
        assert s[start..j] + [s[j]] == s[start..i];
        assert PartsBefore(s, d, i) + [s[PartStart(s, d, i)..i]] == done + [s[start..i]];
        PartsBeforeSplit(s, d, j);
        SplitStep(s, d, j);
        ExtendLastAppend(done, s[start..j], [s[j]]);
      }
    }
  }

  /** Fewer parts are completed at any point than the delimiter count allows for. */
  lemma {:induction false} PartsBeforeBound(s: string, d: char, i: nat)
    requires i <= |s|
    ensures |PartsBefore(s, d, i)| < CountOf(s, d) + 1
  {
    PartsBeforeSplit(s, d, i);
    SplitCount(s[..i], d);
    CountOfPrefix(s, d, i);
  }

  lemma {:induction false} CountStep(s: string, d: char, i: nat)
    requires i < |s|
    ensures CountOf(s[..i + 1], d) == CountOf(s[..i], d) + (if s[i] == d then 1 else 0)
  {
    assert s[..i + 1][..i] == s[..i];
  }

  lemma {:induction false} SplitStep(s: string, d: char, i: nat)
    requires i < |s|
    ensures SplitSpec(s[..i + 1], d) ==
            if s[i] == d then SplitSpec(s[..i], d) + [""] else ExtendLast(SplitSpec(s[..i], d), [s[i]])
  {
    assert s[..i + 1][..i] == s[..i];
    assert s[..i + 1] == s[..i] + [s[i]];
    SplitSnoc(s[..i], s[i], d);
  }

  // ---- CustomHash ----

  /** One step of CustomHash: (hash * 31 + c) % int.MaxValue in unchecked Int32. */
  function HashStep(h: int, c: char): (r: int)
    ensures -Wire.INT32_MAX < r < Wire.INT32_MAX
  {
    Wire.TruncRem(Wire.Wrap32(h * 31 + c as int), Wire.INT32_MAX)
  }

  function CustomHashSpec(s: string): (r: int)
    ensures s == [] ==> r == 0
    ensures -Wire.INT32_MAX < r < Wire.INT32_MAX
  {
    if s == [] then 0 else HashStep(CustomHashSpec(s[..|s| - 1]), s[|s| - 1])
  }

  method CustomHash(input: string) returns (hash: int)
    ensures hash == CustomHashSpec(input)
  {
    hash := 0;
    var i := 0;
    while i < |input|
      invariant 0 <= i <= |input|
      invariant hash == CustomHashSpec(input[..i])
    {
      assert input[..i + 1][..i] == input[..i];
      hash := HashStep(hash, input[i]);
      i := i + 1;
    }
    assert input[..i] == input;
  }

  // ---- FormatFileListing ----

  const PADDING: nat := 10

  /**
   * A 15-character line: the name cut or space-padded to 10 characters, then size + "B;",
   * with the slots after it left as '\0'. A suffix longer than 5 characters indexes past
   * the array and throws (None here).
   */
  method FormatFileListing(fileName: string, fileSize: int) returns (r: Option<string>)
    ensures r.Some? <==> |IntToString(fileSize) + "B;"| <= 5
    ensures r.Some? <==> -100 < fileSize < 1000
    ensures r.Some? ==> |r.value| == PADDING + 5
    ensures r.Some? ==> forall k :: 0 <= k < PADDING ==>
                          r.value[k] == if k < |fileName| then fileName[k] else ' '
    ensures r.Some? ==> var suffix := IntToString(fileSize) + "B;";
                        r.value[PADDING..PADDING + |suffix|] == suffix
                        && forall k :: PADDING + |suffix| <= k < PADDING + 5 ==> r.value[k] == '\0'
  {
    var formattedLine := new char[PADDING + 5](_ => '\0');
    PadName(formattedLine, fileName);
    var sizeString := IntToString(fileSize) + "B;";
    IntToStringLength(fileSize, 3);
    assert Pow10(2) == 100 && Pow10(3) == 1000;
    if |sizeString| > 5 {
      return None;
    }
    WriteSuffix(formattedLine, sizeString);
    r := Some(formattedLine[..]);
  }

  /** The first loops of FormatFileListing: the name's characters, then spaces, up to PADDING. */
  method PadName(line: array<char>, fileName: string)
    requires line.Length == PADDING + 5
    modifies line
    ensures forall k :: 0 <= k < PADDING ==> line[k] == if k < |fileName| then fileName[k] else ' '
    ensures forall k :: PADDING <= k < line.Length ==> line[k] == old(line[k])
  {
    var i := 0;
    while i < |fileName| && i < PADDING
      invariant 0 <= i <= PADDING && i <= |fileName|
      invariant forall k :: 0 <= k < i ==> line[k] == fileName[k]
      invariant forall k :: PADDING <= k < line.Length ==> line[k] == old(line[k])
    {
      line[i] := fileName[i];
      i := i + 1;
    }
    while i < PADDING
      invariant 0 <= i <= PADDING
      invariant forall k :: 0 <= k < i ==> line[k] == if k < |fileName| then fileName[k] else ' '
      invariant forall k :: PADDING <= k < line.Length ==> line[k] == old(line[k])
    {
      line[i] := ' ';
      i := i + 1;
    }
  }

  /** The last loop of FormatFileListing: the size text copied in right after the name. */
  method WriteSuffix(line: array<char>, suffix: string)
    requires PADDING + |suffix| <= line.Length
    modifies line
    ensures forall k :: 0 <= k < PADDING ==> line[k] == old(line[k])
    ensures forall k :: PADDING <= k < PADDING + |suffix| ==> line[k] == suffix[k - PADDING]
    ensures forall k :: PADDING + |suffix| <= k < line.Length ==> line[k] == old(line[k])
  {
    var j := 0;
    while j < |suffix|
      invariant 0 <= j <= |suffix|
      invariant forall k :: 0 <= k < PADDING ==> line[k] == old(line[k])
      invariant forall k :: PADDING <= k < PADDING + j ==> line[k] == suffix[k - PADDING]
      invariant forall k :: PADDING + j <= k < line.Length ==> line[k] == old(line[k])
    {
      line[PADDING + j] := suffix[j];
      j := j + 1;
    }
  }
}
