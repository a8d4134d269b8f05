/** Types and string helpers shared by the manifest diff, the watcher and the typings service
    (src/shared.ts and the JavaScript built-ins the three core files rely on). */
module Shared {

  /** A dependency section of a manifest: package name to version specifier (an opaque string). */
  type Dependency = map<string, string>

  datatype Option<+T> = None | Some(value: T)

  /** `sub` occurs in `s` starting at position `i`. */
  predicate OccursAt(s: string, sub: string, i: nat)
    requires i <= |s|
  {
    sub <= s[i..]
  }

  /** JavaScript's `s.indexOf(sub) > -1`, which is also what a match of a regular
      expression without special characters tests. */
  predicate Contains(s: string, sub: string)
  {
    exists i: nat | i <= |s| :: OccursAt(s, sub, i)
  }

  /** Whatever contains a string also contains each of its prefixes. */
  lemma {:induction false} ContainsPrefix(s: string, sub: string, longer: string)
    requires sub <= longer
    requires Contains(s, longer)
    ensures Contains(s, sub)
  {
    var i: nat :| i <= |s| && OccursAt(s, longer, i);
    assert sub == s[i..][..|sub|];
    assert OccursAt(s, sub, i);
  }
}
