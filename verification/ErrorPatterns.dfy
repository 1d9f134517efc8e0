/** Retry loop: the patterns that decide whether an error is retried. */
module ErrorPatterns {
  /** The substring relation behind the error patterns. */
  ghost predicate Occurs(sub: string, s: string) {
    exists i :: OccursAt(sub, s, i)
  }

  predicate OccursAt(sub: string, s: string, i: int) {
    0 <= i <= |s| - |sub| && s[i..i + |sub|] == sub
  }

  method Contains(s: string, sub: string) returns (found: bool)
    ensures found <==> Occurs(sub, s)
  {
    if |s| < |sub| {
      return false;
    }
    if s == sub {
      assert OccursAt(sub, s, 0);
      return true;
    }
    if |s| > 0 {
      found := ContainsHelper(s, sub);
    } else {
      return false;
    }
  }

  method ContainsHelper(s: string, sub: string) returns (found: bool)
    ensures found <==> Occurs(sub, s)
  {
    var i := 0;
    while i <= |s| - |sub|
      invariant 0 <= i
      invariant forall j :: 0 <= j < i ==> !OccursAt(sub, s, j)
    {
      if s[i..i + |sub|] == sub {
        assert OccursAt(sub, s, i);
        return true;
      }
      i := i + 1;
    }
    return false;
  }

  ghost predicate OccursAny(patterns: seq<string>, s: string) {
    exists i :: 0 <= i < |patterns| && Occurs(patterns[i], s)
  }

  method ContainsAny(s: string, patterns: seq<string>) returns (found: bool)
    ensures found <==> OccursAny(patterns, s)
  {
    for i := 0 to |patterns|
      invariant forall j :: 0 <= j < i ==> !Occurs(patterns[j], s)
    {
      var hit := Contains(s, patterns[i]);
      if hit {
        return true;
      }
    }
    return false;
  }

  const COMMON_PATTERNS: seq<string> := [
    "connection refused", "timeout", "temporary failure", "network", "ECONNREFUSED", "ETIMEDOUT",
    "i/o timeout", "server closed connection", "too many connections", "deadlock", "resource governor"]
}
