/**
  The mail domain of an address, computed as `address.split('@')[1] || 'unknown'`:
  the text between the first `@` and the next `@` (or the end), with
  "unknown" when there is no `@` or that text is empty.
 */
module Domains {

  const Unknown := "unknown"

  /** JavaScript's `s.split(sep)` for a one-character separator: the pieces between separators. */
  function Split(s: string, sep: char): (parts: seq<string>)
    ensures |parts| >= 1
    ensures forall i :: 0 <= i < |parts| ==> sep !in parts[i]
  {
    if s == [] then [[]]
    else
      var rest := Split(s[1..], sep);
      if s[0] == sep then [[]] + rest
      else [[s[0]] + rest[0]] + rest[1..]
  }

  /** JavaScript's `parts.join(sep)`. */
  function Join(parts: seq<string>, sep: char): string {
    if parts == [] then []
    else if |parts| == 1 then parts[0]
    else parts[0] + [sep] + Join(parts[1..], sep)
  }

  /** `address.split('@')[1] || 'unknown'` (an empty string is falsy in JavaScript). */
  function DomainOf(address: string): (d: string)
    ensures d != [] && '@' !in d
  {
    var parts := Split(address, '@');
    if |parts| >= 2 && parts[1] != [] then parts[1] else Unknown
  }

  /** Joining the pieces with the separator gives back the string. */
  lemma {:induction false} JoinSplit(s: string, sep: char)
    ensures Join(Split(s, sep), sep) == s
  {
    if s != [] {
      var rest := Split(s[1..], sep);
      JoinSplit(s[1..], sep);
      if s[0] == sep {
        assert ([[]] + rest)[1..] == rest;
      } else {
        var parts := [[s[0]] + rest[0]] + rest[1..];
        if |rest| > 1 {
          assert parts[1..] == rest[1..];
          assert Join(rest, sep) == rest[0] + [sep] + Join(rest[1..], sep);
        }
      }
    }
  }

  /** A prefix free of separators belongs to the first piece. */
  lemma {:induction false} SplitPrefix(a: string, b: string, sep: char)
    requires sep !in a
    ensures Split(a + b, sep) == [a + Split(b, sep)[0]] + Split(b, sep)[1..]
  {
    if a == [] {
      assert a + b == b;
      assert a + Split(b, sep)[0] == Split(b, sep)[0];
      assert Split(b, sep) == [Split(b, sep)[0]] + Split(b, sep)[1..];
    } else {
      assert (a + b)[1..] == a[1..] + b;
      SplitPrefix(a[1..], b, sep);
      assert [a[0]] + (a[1..] + Split(b, sep)[0]) == a + Split(b, sep)[0];
    }
  }

  /** Splitting is the inverse of joining pieces that contain no separator. */
  lemma {:induction false} SplitJoin(parts: seq<string>, sep: char)
    requires |parts| >= 1
    requires forall i :: 0 <= i < |parts| ==> sep !in parts[i]
    ensures Split(Join(parts, sep), sep) == parts
  {
    if |parts| == 1 {
      SplitPrefix(parts[0], [], sep);
      assert parts[0] + [] == parts[0];
    } else {
      var tail := Join(parts[1..], sep);
      SplitJoin(parts[1..], sep);
      assert parts[0] + [sep] + tail == parts[0] + ([sep] + tail);
      SplitPrefix(parts[0], [sep] + tail, sep);
      assert ([sep] + tail)[1..] == tail;
      assert Split([sep] + tail, sep) == [[]] + parts[1..];
      assert ([[]] + parts[1..])[1..] == parts[1..];
      assert parts[0] + [] == parts[0];
      assert parts == [parts[0]] + parts[1..];
    }
  }

  /** An address without `@` has the domain "unknown". */
  lemma NoAtIsUnknown(address: string)
    requires '@' !in address
    ensures DomainOf(address) == Unknown
  {
    SplitPrefix(address, [], '@');
    assert address + [] == address;
  }

  /**
    With i the position of the first `@` and j that of the next one (or the
    end), the domain is the text strictly between them, or "unknown" when
    that text is empty.
   */
  lemma DomainBetweenAts(address: string, i: nat, j: nat)
    requires i < j <= |address|
    requires address[i] == '@' && '@' !in address[..i]
    requires '@' !in address[i + 1..j]
    requires j == |address| || address[j] == '@'
    ensures DomainOf(address) == if j == i + 1 then Unknown else address[i + 1..j]
  {
    var between, after := address[i + 1..j], address[j..];
    assert Split(after, '@')[0] == [] by {
      if after != [] {
        assert after[0] == '@';
      }
    }
    SplitPrefix(between, after, '@');
    assert between + after == address[i + 1..];
    assert Split(['@'] + address[i + 1..], '@') == [[]] + Split(address[i + 1..], '@') by {
      assert (['@'] + address[i + 1..])[1..] == address[i + 1..];
    }
    SplitPrefix(address[..i], ['@'] + address[i + 1..], '@');
    assert address[..i] + (['@'] + address[i + 1..]) == address;
    assert Split(address, '@')[1] == between;
  }
}
