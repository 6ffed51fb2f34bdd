/** Relative candidate paths: tools/candidate_inventory.py's _safe_path, the ancestors of a
    path, and the code-point order that sorted() puts names in. */
module PathNames {
  import opened Wrappers

  /** The pieces between slashes, as str.split returns them. */
  function Parts(name: string): (parts: seq<string>)
    ensures parts != []
  {
    if name == "" then [""]
    else if name[0] == '/' then [""] + Parts(name[1..])
    else
      var rest := Parts(name[1..]);
      [[name[0]] + rest[0]] + rest[1..]
  }

  predicate PlainChar(c: char) {
    c != '\\' && c != ':' && c as int >= 32 && c as int != 127
  }

  predicate SafeName(name: string) {
    && name != ""
    && name[0] != '/'
    && (forall i | 0 <= i < |name| :: PlainChar(name[i]))
    && forall i | 0 <= i < |Parts(name)| :: Parts(name)[i] != "" && Parts(name)[i] != "." && Parts(name)[i] != ".."
  }

  /** _safe_path: a directory may end in one slash, which is dropped. */
  function SafePath(name: string, directory: bool): Option<string> {
    var bare := if directory && name != "" && name[|name| - 1] == '/' then name[..|name| - 1] else name;
    if SafeName(bare) then Some(bare) else None
  }

  /** A path above another: the other continues it after a slash. */
  predicate Ancestor(a: string, name: string) {
    a != "" && |a| < |name| && name[..|a|] == a && name[|a|] == '/'
  }

  /** All paths above a name. */
  function Ancestors(name: string): set<string> {
    set i | 0 < i < |name| && name[i] == '/' :: name[..i]
  }

  lemma AncestorsAre(a: string, name: string)
    ensures a in Ancestors(name) <==> Ancestor(a, name)
  {
    if Ancestor(a, name) {
      assert name[..|a|] == a;
    }
  }

  lemma AncestorTransitive(a: string, b: string, c: string)
    requires Ancestor(a, b) && Ancestor(b, c)
    ensures Ancestor(a, c)
  {
    assert c[..|b|][..|a|] == c[..|a|] && c[..|b|][|a|] == c[|a|];
  }

  /** Two paths above one name are themselves one above the other. */
  lemma AncestorsAreChained(a: string, b: string, name: string)
    requires Ancestor(a, name) && Ancestor(b, name) && |a| < |b|
    ensures Ancestor(a, b)
  {
    assert name[..|b|][..|a|] == name[..|a|] && name[..|b|][|a|] == name[|a|];
  }

  /** The directory a path is in, or the empty name for the extraction root. */
  function Parent(name: string): (p: string)
    ensures |p| < |name| || p == name == ""
    ensures p != "" ==> Ancestor(p, name)
    ensures forall i | |p| < i < |name| && 0 < i :: name[i] != '/'
  {
    LastSlash(name, |name|)
  }

  function LastSlash(name: string, end: nat): (p: string)
    requires end <= |name|
    ensures |p| < end || p == "" == name[..end]
    ensures p != "" ==> Ancestor(p, name)
    ensures forall i | |p| < i < end && 0 < i :: name[i] != '/'
  {
    if end <= 1 then ""
    else if name[end - 1] == '/' then name[..end - 1]
    else LastSlash(name, end - 1)
  }

  lemma AncestorsOfParent(name: string, a: string)
    requires Ancestor(a, name)
    ensures Parent(name) != "" && (a == Parent(name) || Ancestor(a, Parent(name)))
  {
    var p := Parent(name);
    if |a| < |p| {
      AncestorsAreChained(a, p, name);
    }
  }

  // ----- order

  /** Code-point order of strings. */
  predicate Less(a: string, b: string) {
    b != "" && (a == "" || a[0] < b[0] || (a[0] == b[0] && Less(a[1..], b[1..])))
  }

  lemma {:induction false} LessTotal(a: string, b: string)
    ensures a == b || Less(a, b) || Less(b, a)
    ensures !(Less(a, b) && Less(b, a)) && !Less(a, a)
  {
    if a != "" && b != "" && a[0] == b[0] {
      LessTotal(a[1..], b[1..]);
      assert a == [a[0]] + a[1..] && b == [b[0]] + b[1..];
    }
    if a != "" {
      LessIrreflexive(a);
    }
  }

  lemma {:induction false} LessIrreflexive(a: string)
    ensures !Less(a, a)
  {
    if a != "" {
      LessIrreflexive(a[1..]);
    }
  }

  lemma {:induction false} LessTransitive(a: string, b: string, c: string)
    requires Less(a, b) && Less(b, c)
    ensures Less(a, c)
  {
    if a != "" && a[0] == b[0] == c[0] {
      LessTransitive(a[1..], b[1..], c[1..]);
    }
  }

  /** A path sorts before everything below it. */
  lemma {:induction false} AncestorsSortFirst(a: string, name: string)
    requires |a| < |name| && name[..|a|] == a
    ensures Less(a, name)
  {
    if a != "" {
      assert name[..|a|][0] == name[0] && name[1..][..|a| - 1] == name[..|a|][1..];
      AncestorsSortFirst(a[1..], name[1..]);
    }
  }

  predicate Ascending(order: seq<string>) {
    forall i, j | 0 <= i < j < |order| :: Less(order[i], order[j])
  }

  /** sorted() of a set of names: the one strictly ascending list of exactly those names. */
  ghost predicate IsSorted(order: seq<string>, names: set<string>) {
    Ascending(order) && forall n :: n in order <==> n in names
  }

  method Sorted(names: set<string>) returns (order: seq<string>)
    ensures IsSorted(order, names)
  {
    order := [];
    var todo := names;
    while todo != {}
      invariant todo <= names
      invariant IsSorted(order, names - todo)
      invariant forall n, m | n in order && m in todo :: Less(n, m)
      decreases |todo|
    {
      var least := Least(todo);
      assert (names - todo) + {least} == names - (todo - {least});
      order := order + [least];
      todo := todo - {least};
    }
  }

  method Least(names: set<string>) returns (least: string)
    requires names != {}
    ensures least in names && forall n | n in names && n != least :: Less(least, n)
  {
    least :| least in names;
    var todo := names - {least};
    while todo != {}
      invariant least in names && todo <= names - {least}
      invariant forall n | n in names - todo && n != least :: Less(least, n)
      decreases |todo|
    {
      var n :| n in todo;
      LessTotal(least, n);
      if Less(n, least) {
        forall m | m in names - todo && m != least ensures Less(n, m) {
          LessTransitive(n, least, m);
        }
        least := n;
      }
      todo := todo - {n};
    }
  }
}
