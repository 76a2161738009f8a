/** Shared vocabulary of the model: optional values, the errors the services raise,
    paginated listings as the cloud APIs return them, and the few java.lang.String
    operations the services rely on. */
module Common {

  datatype Option<+T> = None | Some(value: T)

  /** The exceptions the services throw, one constructor per distinct cause. */
  datatype Error =
    | InstanceNotFound(instanceId: string)          // CloudEndureException
    | TargetIdNotFound(id: string)                  // CloudEndureException
    | SourceIdNotFound(id: string)                  // CloudEndureException
    | InstallAgentFailed                            // CloudEndureException
    | NoMatchingSubnet(publicSubnet: bool)          // IllegalStateException
    | UnparsableReply(operation: string)            // UncheckedIOException / IllegalStateException
    | PortalError(message: string)                  // PortalException
    | UnknownEnumName(name: string)                 // IllegalArgumentException from valueOf
    | DuplicateKey(key: string)                     // IllegalStateException from Collectors.toMap
    | MissingBlueprint(machineId: string)           // NullPointerException on a missing table row
    | IamLookupFailed(name: string)                 // NoSuchEntityException / empty role list
    | AddressIndexOutOfBounds(index: int)           // IndexOutOfBoundsException from List.get
    | MissingCutover                                // NullPointerException from requireNonNull

  datatype Result<+T> = Ok(value: T) | Err(error: Error)

  /** The side of a project a machine is on. */
  datatype Side = Source | Target

  /** A key/value tag, as EC2 and CloudEndure attach them to resources. */
  datatype Tag = Tag(key: string, value: string)

  /** The reply of a Lambda function whose output is read as a JSON map:
      either it parses (and may carry an `errorMessage` entry) or it does not. */
  datatype MapReply = MapReply(errorMessage: Option<string>) | UnreadableMapReply

  /** One page of a paginated AWS listing. */
  datatype Page<T> = Page(items: seq<T>, nextToken: Option<string>)

  /** A complete listing: at least one page, every page but the last carries a
      continuation token and the last one does not. */
  ghost predicate WellFormed<T>(pages: seq<Page<T>>)
  {
    && |pages| > 0
    && (forall i :: 0 <= i < |pages| - 1 ==> pages[i].nextToken.Some?)
    && pages[|pages| - 1].nextToken.None?
  }

  /** Every item of a listing, page after page. */
  function Flatten<T>(pages: seq<Page<T>>): seq<T>
  {
    if pages == [] then [] else Flatten(pages[..|pages| - 1]) + pages[|pages| - 1].items
  }

  /** One more page adds its items at the end. */
  lemma FlattenStep<T>(pages: seq<Page<T>>, k: nat)
    requires k < |pages|
    ensures Flatten(pages[..k + 1]) == Flatten(pages[..k]) + pages[k].items
  {
    assert pages[..k + 1][..k] == pages[..k];
  }

  /** An item is listed exactly when some page holds it. */
  lemma {:induction false} FlattenMember<T>(pages: seq<Page<T>>, x: T)
    ensures x in Flatten(pages) <==> exists i :: 0 <= i < |pages| && x in pages[i].items
  {
    if pages != [] {
      var n := |pages| - 1;
      var pre := pages[..n];
      assert Flatten(pages) == Flatten(pre) + pages[n].items;
      FlattenMember(pre, x);
      if x in Flatten(pages) {
        if x !in pages[n].items {
          var i :| 0 <= i < n && x in pre[i].items;
          assert pre[i] == pages[i];
        }
      } else {
        forall i | 0 <= i < |pages| ensures x !in pages[i].items {
          if i < n {
            assert pre[i] == pages[i];
          }
        }
      }
    }
  }

  /** A listing splits into the items of its first `k` pages and those of the rest. */
  lemma {:induction false} FlattenTail<T>(pages: seq<Page<T>>, k: nat)
    requires k <= |pages|
    ensures Flatten(pages) == Flatten(pages[..k]) + Flatten(pages[k..])
    decreases |pages|
  {
    if k < |pages| {
      var n := |pages| - 1;
      FlattenTail(pages[..n], k);
      assert pages[..n][..k] == pages[..k];
      assert pages[k..][..|pages[k..]| - 1] == pages[..n][k..];
    } else {
      assert pages[..k] == pages;
      assert pages[k..] == [];
    }
  }

  /** Java's integer division, which truncates toward zero. */
  function JavaDiv(a: int, b: int): int
    requires b > 0
  {
    if a >= 0 then a / b else -((-a) / b)
  }

  /** The quotient is rounded toward zero: the remainder it leaves has the sign of the
      dividend and is smaller than the divisor, and negating the dividend negates the
      quotient (unlike Euclidean division, which rounds -7 / 2 down to -4). */
  lemma JavaDivTruncates(a: int, b: int)
    requires b > 0
    ensures a >= 0 ==> 0 <= a - JavaDiv(a, b) * b < b
    ensures a < 0 ==> -b < a - JavaDiv(a, b) * b <= 0
    ensures JavaDiv(-a, b) == -JavaDiv(a, b)
    ensures JavaDiv(-7, 2) == -3 && (-7) / 2 == -4
  {
    if a < 0 {
      var q := (-a) / b;
      assert -a == q * b + (-a) % b;
      assert a - JavaDiv(a, b) * b == -((-a) % b);
    }
  }

  // ---------------------------------------------------------------------------
  // A loop that stops at the first failure

  /** The values of a list of results, in order, when every one succeeded; otherwise
      the first failure. */
  function AllOk<T>(rs: seq<Result<T>>): Result<seq<T>>
    decreases |rs|
  {
    if |rs| == 0 then Ok([])
    else
      var prev := AllOk(rs[..|rs| - 1]);
      if prev.Err? then prev
      else if rs[|rs| - 1].Err? then Err(rs[|rs| - 1].error)
      else Ok(prev.value + [rs[|rs| - 1].value])
  }

  /** One more result: a failure so far stays, a new failure replaces the values, and a
      new value is appended. */
  lemma AllOkStep<T>(rs: seq<Result<T>>, i: nat)
    requires i < |rs|
    ensures AllOk(rs[..i + 1])
         == if AllOk(rs[..i]).Err? then AllOk(rs[..i])
            else if rs[i].Err? then Err(rs[i].error)
            else Ok(AllOk(rs[..i]).value + [rs[i].value])
  {
    assert rs[..i + 1][..i] == rs[..i];
  }

  /** All succeed exactly when each one does. */
  lemma {:induction false} AllOkIff<T>(rs: seq<Result<T>>)
    ensures AllOk(rs).Ok? <==> forall i :: 0 <= i < |rs| ==> rs[i].Ok?
    decreases |rs|
  {
    if |rs| > 0 {
      var n := |rs| - 1;
      var pre := rs[..n];
      AllOkIff(pre);
      assert forall i :: 0 <= i < n ==> pre[i] == rs[i];
    }
  }

  /** On success there is one value per result, in order. */
  lemma {:induction false} AllOkValue<T>(rs: seq<Result<T>>)
    requires AllOk(rs).Ok?
    ensures |AllOk(rs).value| == |rs|
    ensures forall i :: 0 <= i < |rs| ==> rs[i].Ok? && AllOk(rs).value[i] == rs[i].value
    decreases |rs|
  {
    if |rs| > 0 {
      var n := |rs| - 1;
      var pre := rs[..n];
      AllOkValue(pre);
      var v := AllOk(rs).value;
      assert v == AllOk(pre).value + [rs[n].value];
      forall i | 0 <= i < |rs| ensures rs[i].Ok? && v[i] == rs[i].value {
        if i < n {
          assert pre[i] == rs[i];
        }
      }
    }
  }

  /** On failure, the failure is that of the first result that failed. */
  lemma {:induction false} AllOkError<T>(rs: seq<Result<T>>)
    requires AllOk(rs).Err?
    ensures exists i :: (0 <= i < |rs| && rs[i].Err? && AllOk(rs).error == rs[i].error
                         && forall j :: 0 <= j < i ==> rs[j].Ok?)
    decreases |rs|
  {
    var n := |rs| - 1;
    var pre := rs[..n];
    if AllOk(pre).Err? {
      AllOkError(pre);
      var i :| 0 <= i < |pre| && pre[i].Err? && AllOk(pre).error == pre[i].error
               && forall j :: 0 <= j < i ==> pre[j].Ok?;
      assert pre[i] == rs[i];
      assert forall j :: 0 <= j < i ==> pre[j] == rs[j];
    } else {
      AllOkIff(pre);
      assert forall j :: 0 <= j < n ==> pre[j] == rs[j];
    }
  }

  /** Once a prefix has failed, the later results do not matter. */
  lemma {:induction false} AllOkPrefixErr<T>(rs: seq<Result<T>>, k: nat)
    requires k <= |rs| && AllOk(rs[..k]).Err?
    ensures AllOk(rs) == AllOk(rs[..k])
    decreases |rs| - k
  {
    if k < |rs| {
      AllOkStep(rs, k);
      AllOkPrefixErr(rs, k + 1);
    } else {
      assert rs[..k] == rs;
    }
  }

  // ---------------------------------------------------------------------------
  // java.lang.String operations

  predicate StartsWith(s: string, prefix: string)
  {
    |prefix| <= |s| && s[..|prefix|] == prefix
  }

  /** `s.replace(from, to)` for single characters. */
  function ReplaceChar(s: string, from: char, to: char): string
  {
    seq(|s|, i requires 0 <= i < |s| => if s[i] == from then to else s[i])
  }

  /** Replacing a character by a different one leaves no occurrence of it. */
  lemma ReplaceCharRemoves(s: string, from: char, to: char)
    requires from != to
    ensures from !in ReplaceChar(s, from, to)
  {
    var r := ReplaceChar(s, from, to);
    assert forall i :: 0 <= i < |r| ==> r[i] != from;
  }

  /** `s.replaceAll(pattern, replacement)` for a pattern without regular-expression
      metacharacters: occurrences are replaced left to right, without overlap. */
  function ReplaceAll(s: string, pattern: string, replacement: string): string
    requires |pattern| > 0
    decreases |s|
  {
    if |s| < |pattern| then s
    else if s[..|pattern|] == pattern then replacement + ReplaceAll(s[|pattern|..], pattern, replacement)
    else [s[0]] + ReplaceAll(s[1..], pattern, replacement)
  }

  /** A string in which the pattern does not occur is left as it is. */
  lemma {:induction false} ReplaceAllAbsent(s: string, pattern: string, replacement: string)
    requires |pattern| > 0 && !Contains(s, pattern)
    ensures ReplaceAll(s, pattern, replacement) == s
    decreases |s|
  {
    if |s| >= |pattern| {
      ReplaceAllAbsent(s[1..], pattern, replacement);
      assert s == [s[0]] + s[1..];
    }
  }

  /** An occurrence at the front is replaced, and the scan resumes after it. */
  lemma ReplaceAllFront(pattern: string, rest: string, replacement: string)
    requires |pattern| > 0
    ensures ReplaceAll(pattern + rest, pattern, replacement) == replacement + ReplaceAll(rest, pattern, replacement)
  {
    var s := pattern + rest;
    assert s[..|pattern|] == pattern;
    assert s[|pattern|..] == rest;
  }

  /** `s.substring(s.lastIndexOf(c) + 1)`: the text after the last `c`, or all of `s`
      when `c` does not occur. */
  function AfterLast(s: string, c: char): (r: string)
    ensures c !in r
    ensures c in s ==> exists prefix :: s == prefix + [c] + r
    ensures c !in s ==> r == s
  {
    var k := LastIndexOf(s, c);
    assert k >= 0 ==> s == s[..k] + [c] + s[k + 1..];
    s[k + 1..]
  }

  /** True when `pattern` occurs somewhere in `s`. */
  predicate Contains(s: string, pattern: string)
  {
    StartsWith(s, pattern) || (s != [] && Contains(s[1..], pattern))
  }

  /** `s.lastIndexOf(c)`: the last position of `c`, or -1. */
  function LastIndexOf(s: string, c: char): (r: int)
    ensures -1 <= r < |s|
    ensures r >= 0 ==> s[r] == c
    ensures forall i :: r < i < |s| ==> s[i] != c
  {
    if s == [] then -1
    else if s[|s| - 1] == c then |s| - 1
    else LastIndexOf(s[..|s| - 1], c)
  }

  /** `s.split(String.valueOf(sep))` with Java's rules: when `sep` does not occur the
      result is `[s]`; otherwise the pieces between separators, with trailing empty
      pieces removed. */
  function JavaSplit(s: string, sep: char): (r: seq<string>)
    ensures forall i :: 0 <= i < |r| ==> sep !in r[i]
  {
    if sep !in s then [s] else DropTrailingEmpty(SplitAll(s, sep))
  }

  /** Every piece between separators, empty ones included. */
  function SplitAll(s: string, sep: char): (r: seq<string>)
    ensures |r| > 0
    ensures forall i :: 0 <= i < |r| ==> sep !in r[i]
  {
    if s == [] then [""]
    else
      var rest := SplitAll(s[1..], sep);
      if s[0] == sep then [""] + rest else [[s[0]] + rest[0]] + rest[1..]
  }

  /** The pieces with one separator between each two: `String.join`, the inverse of
      cutting at every separator. */
  function Join(parts: seq<string>, sep: char): string
    requires |parts| > 0
    decreases |parts|
  {
    if |parts| == 1 then parts[0] else parts[0] + [sep] + Join(parts[1..], sep)
  }

  /** Cutting a string at every separator and joining the pieces back gives the string:
      the pieces are exactly the text between the separators. */
  lemma {:induction false} SplitAllJoin(s: string, sep: char)
    ensures Join(SplitAll(s, sep), sep) == s
    decreases |s|
  {
    if s != [] {
      var rest := SplitAll(s[1..], sep);
      SplitAllJoin(s[1..], sep);
      var r := SplitAll(s, sep);
      if s[0] == sep {
        assert r == [""] + rest && r[1..] == rest;
        assert Join(r, sep) == [sep] + s[1..];
      } else if |rest| == 1 {
        assert r == [[s[0]] + rest[0]];
        assert Join(r, sep) == [s[0]] + rest[0];
      } else {
        assert r == [[s[0]] + rest[0]] + rest[1..] && r[1..] == rest[1..];
        assert Join(rest, sep) == rest[0] + [sep] + Join(rest[1..], sep);
        assert Join(r, sep) == [s[0]] + (rest[0] + [sep] + Join(rest[1..], sep));
      }
      assert s == [s[0]] + s[1..];
    }
  }

  /** What `split` keeps, followed by the empty pieces it dropped at the end, joins back
      to the string; without a separator the one piece is the string itself. */
  lemma JavaSplitJoin(s: string, sep: char)
    ensures sep !in s ==> JavaSplit(s, sep) == [s] && Join(JavaSplit(s, sep), sep) == s
    ensures sep in s ==>
      && |JavaSplit(s, sep)| <= |SplitAll(s, sep)|
      && Join(JavaSplit(s, sep) + seq(|SplitAll(s, sep)| - |JavaSplit(s, sep)|, _ => ""), sep) == s
  {
    if sep in s {
      var parts := SplitAll(s, sep);
      var r := JavaSplit(s, sep);
      assert r + seq(|parts| - |r|, _ => "") == parts;
      SplitAllJoin(s, sep);
    }
  }

  /** The pieces without the run of empty ones at the end. */
  function DropTrailingEmpty(parts: seq<string>): (r: seq<string>)
    ensures |r| <= |parts| && r == parts[..|r|]
    ensures r != [] ==> r[|r| - 1] != ""
    ensures forall i :: |r| <= i < |parts| ==> parts[i] == ""
  {
    if parts == [] then []
    else if parts[|parts| - 1] == "" then DropTrailingEmpty(parts[..|parts| - 1])
    else parts
  }
}
