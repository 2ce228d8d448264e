/** `join` of src/tools/stringProcess.hpp: the elements of a range, in order,
    with one separator between neighbours. */
module StringProcess {

  /** Reference definition, built as the source's second loop builds it: the
      first element, then separator and element for each further one. */
  function Joined(parts: seq<string>, sep: string): string
  {
    if |parts| <= 1 then (if parts == [] then "" else parts[0])
    else Joined(parts[..|parts| - 1], sep) + sep + parts[|parts| - 1]
  }

  function TotalLength(parts: seq<string>): nat
  {
    if parts == [] then 0 else TotalLength(parts[..|parts| - 1]) + |parts[|parts| - 1]|
  }

  /** `join`: sizes the result first (element lengths plus one separator per
      gap), then appends the first element and, for each further element,
      the separator and the element. */
  method Join(range: seq<string>, sep: string) returns (result: string)
    ensures range == [] ==> result == ""
    ensures result == Joined(range, sep)
    ensures range != [] ==> |result| == TotalLength(range) + |sep| * (|range| - 1)
  {
    if range == [] {
      return "";
    }
    var totalSize := 0;
    var count := 0;
    while count < |range|
      invariant 0 <= count <= |range|
      invariant totalSize == TotalLength(range[..count])
    {
      assert range[..count + 1][..count] == range[..count];
      totalSize := totalSize + |range[count]|;
      count := count + 1;
    }
    assert range[..count] == range;
    totalSize := totalSize + |sep| * (count - 1);
    result := range[0];
    var k := 1;
    while k < |range|
      invariant 1 <= k <= |range|
      invariant result == Joined(range[..k], sep)
    {
      assert range[..k + 1][..k] == range[..k];
      result := result + sep + range[k];
      k := k + 1;
    }
    assert range[..k] == range;
    JoinedLength(range, sep);
    assert |result| == totalSize;
  }

  /** An empty range joins to the empty string and a single element joins to itself. */
  lemma JoinedShort(parts: seq<string>, sep: string)
    requires |parts| <= 1
    ensures Joined(parts, sep) == if parts == [] then "" else parts[0]
  {
  }

  /** The joined string has every element's characters and one separator per gap. */
  lemma {:induction false} JoinedLength(parts: seq<string>, sep: string)
    requires parts != []
    ensures |Joined(parts, sep)| == TotalLength(parts) + |sep| * (|parts| - 1)
  {
    if |parts| > 1 {
      JoinedLength(parts[..|parts| - 1], sep);
    }
  }

  /** Joining a head with a non-empty rest puts exactly one separator between them. */
  lemma {:induction false} JoinedCons(a: string, rest: seq<string>, sep: string)
    requires rest != []
    ensures Joined([a] + rest, sep) == a + sep + Joined(rest, sep)
  {
    var parts := [a] + rest;
    if |rest| > 1 {
      assert parts[..|parts| - 1] == [a] + rest[..|rest| - 1];
      JoinedCons(a, rest[..|rest| - 1], sep);
    } else {
      assert parts[..|parts| - 1] == [a];
    }
  }

  /** The joined string begins with the first element. */
  lemma {:induction false} JoinedStartsWithFirst(parts: seq<string>, sep: string)
    requires parts != []
    ensures |parts[0]| <= |Joined(parts, sep)|
    ensures Joined(parts, sep)[..|parts[0]|] == parts[0]
  {
    if |parts| > 1 {
      JoinedStartsWithFirst(parts[..|parts| - 1], sep);
      assert parts[..|parts| - 1][0] == parts[0];
    }
  }
}
