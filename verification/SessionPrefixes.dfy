/** xferry/advanced_sessions.py's data-plane prefixes: which are accepted, and which request
    paths one of them claims. */
module SessionPrefixes {
  import opened PathNames

  const RESERVED := "/_xferry"

  predicate StartsWith(s: string, start: string) {
    |start| <= |s| && s[..|start|] == start
  }

  predicate PrefixChar(c: char) {
    c != '?' && c != '#' && c != '%' && c != '\\' && c as int >= 32 && c as int != 127
  }

  predicate IsReserved(path: string) {
    path == RESERVED || StartsWith(path, RESERVED + "/")
  }

  /** The path segments after the leading slash. */
  function Segments(path: string): seq<string>
    requires path != ""
  {
    Parts(path[1..])
  }

  /** validate_advanced_session_prefix accepts. */
  predicate ValidPrefix(prefix: string) {
    && prefix != "" && prefix[0] == '/'
    && (forall i | 0 <= i < |prefix| :: PrefixChar(prefix[i]))
    && (prefix == "/" ||
        (&& prefix[|prefix| - 1] != '/'
         && (forall i | 0 <= i < |Segments(prefix)| ::
               Segments(prefix)[i] != "" && Segments(prefix)[i] != "." && Segments(prefix)[i] != "..")
         && !IsReserved(prefix)))
  }

  /** advanced_session_prefix_matches */
  predicate Matches(prefix: string, raw: string, decoded: string) {
    && raw != "" && raw[0] == '/' && decoded != "" && decoded[0] == '/'
    && !IsReserved(raw) && !IsReserved(decoded)
    && (prefix == "/" || raw == prefix || StartsWith(raw, prefix + "/"))
  }

  /** Cutting at slashes turns "equal, or continued after a slash" into "first segments equal". */
  lemma {:induction false} PartsPrefix(a: string, b: string)
    ensures Parts(a) <= Parts(b) <==> b == a || (|a| < |b| && b[..|a|] == a && b[|a|] == '/')
  {
    if a == "" {
      assert Parts(a) == [""];
      assert Parts(b)[0] == "" <==> b == "" || b[0] == '/';
    } else if b != "" && a[0] == b[0] {
      PartsPrefix(a[1..], b[1..]);
      TailsAgree(a, b);
      var p, q := Parts(a[1..]), Parts(b[1..]);
      if a[0] == '/' {
        assert Parts(a)[1..] == p && Parts(b)[1..] == q;
        assert Parts(a) <= Parts(b) <==> p <= q by {
          if p <= q { assert Parts(a) == Parts(b)[..|p| + 1]; }
          if Parts(a) <= Parts(b) { assert q[..|p|] == Parts(b)[..|p| + 1][1..]; }
        }
      } else {
        assert ([a[0]] + p[0])[1..] == p[0] && ([b[0]] + q[0])[1..] == q[0];
        assert Parts(a) <= Parts(b) <==> p <= q by {
          if p <= q { assert Parts(a) == Parts(b)[..|p|]; }
          if Parts(a) <= Parts(b) {
            assert Parts(a)[0] == Parts(b)[0];
            assert p[1..] == Parts(a)[1..] == Parts(b)[..|p|][1..];
            assert p == [p[0]] + p[1..] && q[..|p|] == [q[0]] + q[..|p|][1..];
          }
        }
      }
    } else {
      HeadsDiffer(a, b);
    }
  }

  lemma TailsAgree(a: string, b: string)
    requires a != "" && b != "" && a[0] == b[0]
    ensures b == a <==> b[1..] == a[1..]
    ensures |a| < |b| ==> (b[..|a|] == a <==> b[1..][..|a| - 1] == a[1..])
  {
    assert a == [a[0]] + a[1..] && b == [b[0]] + b[1..];
    if |a| < |b| {
      assert b[..|a|] == [b[0]] + b[1..][..|a| - 1];
    }
  }

  lemma HeadsDiffer(a: string, b: string)
    requires a != "" && (b == "" || a[0] != b[0])
    ensures !(Parts(a) <= Parts(b)) && b != a && !(|a| < |b| && b[..|a|] == a)
  {
    hide Parts;
    HeadPart(a);
    HeadPart(b);
    assert |a| < |b| ==> b[..|a|][0] == b[0];
  }

  /** The first piece of a path shows its first character. */
  lemma HeadPart(s: string)
    ensures Parts(s)[0] == "" <==> s == "" || s[0] == '/'
    ensures s != "" && s[0] == '/' ==> |Parts(s)| > 1
    ensures s == "" ==> |Parts(s)| == 1
    ensures s != "" && s[0] != '/' ==> Parts(s)[0] != "" && Parts(s)[0][0] == s[0]
  {
  }

  /** A validated prefix claims a request exactly by whole segments: the raw path's first segments
      are the prefix's, and neither form of the path lies in the reserved namespace. */
  lemma MatchesBySegments(prefix: string, raw: string, decoded: string)
    requires ValidPrefix(prefix)
    ensures Matches(prefix, raw, decoded) <==>
            && raw != "" && raw[0] == '/' && decoded != "" && decoded[0] == '/'
            && !IsReserved(raw) && !IsReserved(decoded)
            && (prefix == "/" || Segments(prefix) <= Segments(raw))
  {
    hide Parts, IsReserved, PrefixChar;
    if prefix != "/" && raw != "" && raw[0] == '/' {
      PartsPrefix(prefix[1..], raw[1..]);
      TailsAgree(prefix, raw);
      if |prefix| < |raw| {
        assert StartsWith(raw, prefix + "/") <==> raw[..|prefix|] == prefix && raw[|prefix|] == '/' by {
          assert raw[..|prefix| + 1] == raw[..|prefix|] + [raw[|prefix|]];
          assert (prefix + "/")[..|prefix|] == prefix && (prefix + "/")[|prefix|] == '/';
        }
      }
    }
  }
}
