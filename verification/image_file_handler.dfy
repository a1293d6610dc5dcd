/**
 * `generateNewFileName` of ImageFileHandler.java: the name offered when an
 * image is saved. The file name splits at its last '.', and the counter
 * 1, 2, 3, ... goes between the two parts until the name is free. Whether
 * a name exists in the original file's directory is membership in the
 * finite set `existing`.
 */
module ImageFileHandler {

  /** A value, or the StringIndexOutOfBoundsException `substring` throws. */
  datatype Result<T> = Ok(value: T) | IndexOutOfBounds

  /** `s.lastIndexOf(ch)`: the last position holding ch, or -1 when there is none. */
  function LastIndexOf(s: string, ch: char): (i: int)
    ensures -1 <= i < |s|
    ensures i >= 0 ==> s[i] == ch
    ensures forall k :: i < k < |s| ==> s[k] != ch
  {
    if s == [] then -1
    else if s[|s| - 1] == ch then |s| - 1
    else LastIndexOf(s[..|s| - 1], ch)
  }

  /**
   * The base name and the extension: `substring(0, dot)` and
   * `substring(dot)` at the last '.'; with no '.' both calls get -1 and
   * the first one throws.
   */
  function SplitName(name: string): (r: Result<(string, string)>)
    ensures r.IndexOutOfBounds? <==> '.' !in name
    ensures r.Ok? ==> r.value.0 + r.value.1 == name
  {
    var dot := LastIndexOf(name, '.');
    assert dot < 0 ==> forall k :: 0 <= k < |name| ==> name[k] != '.';
    assert dot >= 0 ==> name[..dot] + name[dot..] == name;
    if dot < 0 then IndexOutOfBounds else Ok((name[..dot], name[dot..]))
  }

  /** The extension starts at the last '.': a '.' followed by no other '.'. */
  lemma SplitNameParts(name: string)
    requires '.' in name
    ensures var ext := SplitName(name).value.1;
      |ext| >= 1 && ext[0] == '.' && '.' !in ext[1..]
  {
    var dot := LastIndexOf(name, '.');
    assert name[dot..][1..] == name[dot + 1..];
  }

  function Digit(d: int): (ch: char)
    requires 0 <= d < 10
    ensures '0' <= ch <= '9'
  {
    ('0' as int + d) as char
  }

  /** The decimal digits of n, as string concatenation writes an int. */
  function Decimal(n: nat): (s: string)
    ensures |s| >= 1
    ensures forall k :: 0 <= k < |s| ==> '0' <= s[k] <= '9'
  {
    if n < 10 then [Digit(n)] else Decimal(n / 10) + [Digit(n % 10)]
  }

  /** The number a string of digits denotes. */
  function DigitsValue(s: string): nat
    requires forall k :: 0 <= k < |s| ==> '0' <= s[k] <= '9'
  {
    if s == [] then 0 else 10 * DigitsValue(s[..|s| - 1]) + (s[|s| - 1] as int - '0' as int)
  }

  /** Reading the digits back gives the number: the decimal string of n determines n. */
  lemma {:induction false} DecimalValue(n: nat)
    ensures DigitsValue(Decimal(n)) == n
  {
    if n >= 10 {
      DecimalValue(n / 10);
      var s := Decimal(n);
      assert s[..|s| - 1] == Decimal(n / 10);
    }
  }

  /** The k-th name tried: the base name, the counter in decimal, the extension. */
  function Candidate(base: string, k: nat, ext: string): string
  {
    base + Decimal(k) + ext
  }

  /** Different counters give different names. */
  lemma CandidateInjective(base: string, ext: string, j: nat, k: nat)
    requires Candidate(base, j, ext) == Candidate(base, k, ext)
    ensures j == k
  {
    var s := Candidate(base, j, ext);
    assert Decimal(j) == s[|base|..|s| - |ext|];
    assert Decimal(k) == s[|base|..|s| - |ext|];
    DecimalValue(j);
    DecimalValue(k);
  }

  /** k is the least counter from 1 whose name is not taken. */
  ghost predicate FirstFree(existing: set<string>, base: string, ext: string, k: int)
  {
    && k >= 1
    && Candidate(base, k, ext) !in existing
    && forall j :: 1 <= j < k ==> Candidate(base, j, ext) in existing
  }

  /** At most one counter is the first free one, so the name offered is determined by the set. */
  lemma FirstFreeUnique(existing: set<string>, base: string, ext: string, j: int, k: int)
    requires FirstFree(existing, base, ext, j) && FirstFree(existing, base, ext, k)
    ensures j == k
  {
  }

  /** The taken names that a counter from k on could still produce. */
  ghost function Pending(existing: set<string>, base: string, ext: string, k: nat): set<string>
  {
    set s | s in existing && exists j: nat :: k <= j && s == Candidate(base, j, ext)
  }

  /** Stepping past a taken counter leaves fewer taken names ahead: the search ends. */
  lemma PendingShrinks(existing: set<string>, base: string, ext: string, k: nat)
    requires Candidate(base, k, ext) in existing
    ensures |Pending(existing, base, ext, k + 1)| < |Pending(existing, base, ext, k)|
  {
    var now, next := Pending(existing, base, ext, k), Pending(existing, base, ext, k + 1);
    var x := Candidate(base, k, ext);
    assert x in now;
    forall s | s in next ensures s in now - {x} {
      var j: nat :| k + 1 <= j && s == Candidate(base, j, ext);
      if s == x {
        CandidateInjective(base, ext, j, k);
      }
    }
    assert now - {x} == next + ((now - {x}) - next);
    assert next * ((now - {x}) - next) == {};
  }

  /**
   * `generateNewFileName`: base + "1" + extension first, then the counter
   * goes up while the name is taken. The name comes back free, with the
   * least counter that makes it so; a name with no '.' throws.
   */
  method GenerateNewFileName(name: string, existing: set<string>) returns (r: Result<string>)
    ensures r.IndexOutOfBounds? <==> SplitName(name).IndexOutOfBounds?
    ensures r.Ok? ==> r.value !in existing
    ensures r.Ok? ==> var (base, ext) := SplitName(name).value;
      exists k :: FirstFree(existing, base, ext, k) && r.value == Candidate(base, k, ext)
  {
    var dot := LastIndexOf(name, '.');
    if dot < 0 {
      return IndexOutOfBounds;
    }
    var base, ext := name[..dot], name[dot..];
    var newFileName := base + "1" + ext;
    var counter := 1;
    assert Decimal(1) == "1";
    while newFileName in existing
      invariant counter >= 1 && newFileName == Candidate(base, counter, ext)
      invariant forall j :: 1 <= j < counter ==> Candidate(base, j, ext) in existing
      decreases |Pending(existing, base, ext, counter)|
    {
      PendingShrinks(existing, base, ext, counter);
      counter := counter + 1;
      newFileName := base + Decimal(counter) + ext;
    }
    assert FirstFree(existing, base, ext, counter);
    return Ok(newFileName);
  }
}
