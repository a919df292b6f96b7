/**
 * The string side of pathlib that the toolbox relies on: splitting a relative
 * path string into components, a file name's suffix and stem, and the decimal
 * text of an integer as an f-string writes it.
 */
module PathNames {

  /** The index of the first c in s, or |s| when there is none. */
  function IndexOf(s: string, c: char): (i: nat)
    ensures i <= |s|
    ensures i < |s| ==> s[i] == c
  {
    if s == [] then 0
    else if s[0] == c then 0
    else 1 + IndexOf(s[1..], c)
  }

  /** The index of the last c in s, or -1 when there is none (str.rfind). */
  function LastIndexOf(s: string, c: char): (i: int)
    ensures -1 <= i < |s|
    ensures 0 <= i ==> s[i] == c
    ensures c !in s[i + 1..]
  {
    if s == [] then -1
    else if s[|s| - 1] == c then |s| - 1
    else LastIndexOf(s[..|s| - 1], c)
  }

  /** A component as pathlib keeps it: not empty, not '.', no separator. */
  predicate IsComponent(part: string) {
    part != "" && part != "." && '/' !in part
  }

  /**
   * The components pathlib makes of a relative path string: split at '/',
   * dropping empty and '.' components.
   */
  function Parts(s: string): (parts: seq<string>)
    ensures s == "" || s == "." ==> parts == []
    ensures IsComponent(s) ==> parts == [s]
    ensures s != [] && s[0] == '/' ==> parts == Parts(s[1..])
    decreases |s|
  {
    var i := IndexOf(s, '/');
    var rest := if i < |s| then Parts(s[i + 1..]) else [];
    assert '/' !in s ==> i == |s| && s[..i] == s by {
      if '/' !in s {
        IndexOfAbsent(s, '/');
      }
    }
    if s[..i] == "" || s[..i] == "." then rest else [s[..i]] + rest
  }

  /** No character before the first c is a c. */
  lemma {:induction false} IndexOfIsFirst(s: string, c: char)
    ensures c !in s[..IndexOf(s, c)]
  {
    if s != [] && s[0] != c {
      IndexOfIsFirst(s[1..], c);
      assert s[..IndexOf(s, c)] == [s[0]] + s[1..][..IndexOf(s[1..], c)];
    }
  }

  /** Every component pathlib keeps is a proper one. */
  lemma {:induction false} PartsAreComponents(s: string)
    ensures forall k :: 0 <= k < |Parts(s)| ==> IsComponent(Parts(s)[k])
    decreases |s|
  {
    var i := IndexOf(s, '/');
    IndexOfIsFirst(s, '/');
    if i < |s| {
      PartsAreComponents(s[i + 1..]);
    }
  }

  /** The components written back out with '/' between them (str(Path)). */
  function Join(parts: seq<string>): string {
    if parts == [] then ""
    else if |parts| == 1 then parts[0]
    else parts[0] + "/" + Join(parts[1..])
  }

  /** Splitting the written-out form of components gives the components back. */
  lemma {:induction false} PartsOfJoin(parts: seq<string>)
    requires forall k :: 0 <= k < |parts| ==> IsComponent(parts[k])
    ensures Parts(Join(parts)) == parts
  {
    if parts == [] {
    } else if |parts| == 1 {
      var s := Join(parts);
      assert s == parts[0];
      IndexOfAbsent(s, '/');
      assert s[..|s|] == s;
    } else {
      var s := Join(parts);
      var head := parts[0];
      assert s == head + ("/" + Join(parts[1..]));
      IndexOfAfter(head, "/" + Join(parts[1..]), '/');
      assert IndexOf(s, '/') == |head|;
      assert s[..|head|] == head;
      assert s[|head| + 1..] == Join(parts[1..]);
      PartsOfJoin(parts[1..]);
    }
  }

  lemma {:induction false} IndexOfAbsent(s: string, c: char)
    requires c !in s
    ensures IndexOf(s, c) == |s|
  {
    if s != [] {
      assert c !in s[1..];
      IndexOfAbsent(s[1..], c);
    }
  }

  lemma {:induction false} IndexOfAfter(a: string, b: string, c: char)
    requires c !in a && b != [] && b[0] == c
    ensures IndexOf(a + b, c) == |a|
  {
    if a != [] {
      assert (a + b)[1..] == a[1..] + b;
      assert c !in a[1..];
      IndexOfAfter(a[1..], b, c);
    }
  }

  /** The last dot of a + b lies in b when b has one. */
  lemma {:induction false} LastIndexOfAppend(a: string, b: string, c: char)
    requires c in b
    ensures LastIndexOf(a + b, c) == |a| + LastIndexOf(b, c)
  {
    var n := |b|;
    assert (a + b)[|a + b| - 1] == b[n - 1];
    if b[n - 1] != c {
      assert (a + b)[..|a + b| - 1] == a + b[..n - 1];
      assert c in b[..n - 1] by {
        var k :| 0 <= k < n && b[k] == c;
        assert k < n - 1;
        assert b[..n - 1][k] == c;
      }
      LastIndexOfAppend(a, b[..n - 1], c);
    }
  }

  /** PurePath.suffix: from the last dot on, unless the dot is first or last. */
  function Suffix(name: string): string {
    var i := LastIndexOf(name, '.');
    if 0 < i < |name| - 1 then name[i..] else ""
  }

  /** PurePath.stem: the name without its suffix. */
  function Stem(name: string): string {
    var i := LastIndexOf(name, '.');
    if 0 < i < |name| - 1 then name[..i] else name
  }

  /**
   * A name is its stem followed by its suffix, and a non-empty suffix is a
   * dot, then at least one character, none of them a dot, after a non-empty stem.
   */
  lemma StemAndSuffix(name: string)
    ensures Stem(name) + Suffix(name) == name
    ensures Suffix(name) != "" ==>
              && |Suffix(name)| >= 2 && Suffix(name)[0] == '.'
              && '.' !in Suffix(name)[1..] && Stem(name) != ""
  {
    var i := LastIndexOf(name, '.');
    if 0 < i < |name| - 1 {
      assert Suffix(name) == name[i..] && Stem(name) == name[..i];
      assert name[..i] + name[i..] == name;
      assert name[i..][1..] == name[i + 1..];
    } else {
      assert Suffix(name) == "" && Stem(name) == name;
    }
  }

  predicate IsDigit(c: char) {
    '0' <= c <= '9'
  }

  function DigitChar(d: nat): (c: char)
    requires d < 10
    ensures IsDigit(c)
  {
    "0123456789"[d]
  }

  /** The decimal text of n, as f'{n}' writes a non-negative int. */
  function Decimal(n: nat): (s: string)
    ensures s != []
    ensures forall k :: 0 <= k < |s| ==> IsDigit(s[k])
  {
    if n < 10 then [DigitChar(n)] else Decimal(n / 10) + [DigitChar(n % 10)]
  }

  /** The value of a string of decimal digits. */
  function DecimalValue(s: string): nat
    requires forall k :: 0 <= k < |s| ==> IsDigit(s[k])
  {
    if s == [] then 0
    else
      assert IsDigit(s[|s| - 1]);
      10 * DecimalValue(s[..|s| - 1]) + (s[|s| - 1] as int - '0' as int)
  }

  /** Reading the decimal text back gives the number. */
  lemma {:induction false} DecimalRoundTrip(n: nat)
    ensures DecimalValue(Decimal(n)) == n
  {
    if n >= 10 {
      var s := Decimal(n);
      assert s[..|s| - 1] == Decimal(n / 10);
      DecimalRoundTrip(n / 10);
    }
  }

  lemma DigitsHaveNoDot(s: string)
    requires forall k :: 0 <= k < |s| ==> IsDigit(s[k])
    ensures '.' !in s && '/' !in s
  {
  }
}
