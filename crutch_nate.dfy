/**
 * The two string steps of the entry point: the schema name taken from the JDBC URL,
 * and the script split into the statement batch handed to `batchUpdate`.
 */
module CrutchNate {
  import opened Wrappers
  import opened Text
  import opened DdlGenerator

  // ---------------------------------------------------------------------------
  // getSchemaName

  /** `jdbcUrl.substring(jdbcUrl.lastIndexOf("/") + 1)`. */
  function SchemaName(jdbcUrl: string): (r: string)
    ensures |r| <= |jdbcUrl| && r == jdbcUrl[|jdbcUrl| - |r|..]
    ensures '/' !in r
    ensures '/' !in jdbcUrl ==> r == jdbcUrl
    ensures '/' in jdbcUrl ==> jdbcUrl[|jdbcUrl| - |r| - 1] == '/'
  {
    AfterLast(jdbcUrl, '/');
    jdbcUrl[LastOccurrence(jdbcUrl, '/') + 1..]
  }

  lemma AfterLast(s: string, c: char)
    ensures var i := LastOccurrence(s, c);
      && c !in s[i + 1..]
      && (c !in s ==> i == -1)
      && (c in s ==> i >= 0 && s[i] == c)
  {
    var i := LastOccurrence(s, c);
    LastOccurrenceSpec(s, c);
    var t := s[i + 1..];
    assert forall k :: 0 <= k < |t| ==> t[k] == s[i + 1 + k];
    if c in s {
      var k :| 0 <= k < |s| && s[k] == c;
      assert k <= i;
    }
  }

  // ---------------------------------------------------------------------------
  // String.split with a one-character separator

  /** The pieces between separators, empty ones included: one more piece than separators. */
  function Fragments(s: string, c: char): (r: seq<string>)
    ensures |r| >= 1
    decreases |s|
  {
    if |s| == 0 then [""]
    else
      var rest := Fragments(s[1..], c);
      if s[0] == c then [""] + rest else [[s[0]] + rest[0]] + rest[1..]
  }

  /** The pieces glued back together with the separator between them. */
  function Join(xs: seq<string>, c: char): string
  {
    if |xs| == 0 then ""
    else if |xs| == 1 then xs[0]
    else xs[0] + [c] + Join(xs[1..], c)
  }

  function Blanks(n: nat): (r: seq<string>)
    ensures |r| == n && forall i :: 0 <= i < n ==> r[i] == ""
  {
    if n == 0 then [] else [""] + Blanks(n - 1)
  }

  lemma TrimmedBlanks(xs: seq<string>)
    ensures TrimTrailingEmpty(xs) + Blanks(|xs| - |TrimTrailingEmpty(xs)|) == xs
  {
    var r := TrimTrailingEmpty(xs);
    var b := Blanks(|xs| - |r|);
    assert forall i :: 0 <= i < |xs| ==> (r + b)[i] == xs[i];
  }

  /** Java's `split(regex)` with limit 0 drops every trailing empty string. */
  function TrimTrailingEmpty(xs: seq<string>): (r: seq<string>)
    ensures r <= xs
    ensures |r| > 0 ==> r[|r| - 1] != ""
    ensures forall i :: |r| <= i < |xs| ==> xs[i] == ""
  {
    if |xs| == 0 then []
    else if xs[|xs| - 1] == "" then TrimTrailingEmpty(xs[..|xs| - 1])
    else xs
  }

  /**
   * `s.split(";")`: a string with no separator comes back whole (so "" gives [""]);
   * otherwise the pieces, less the trailing empty ones.
   */
  function JavaSplit(s: string, c: char): seq<string>
  {
    if c !in s then [s] else TrimTrailingEmpty(Fragments(s, c))
  }

  lemma {:induction false} FragmentsNoSeparator(s: string, c: char)
    ensures forall i :: 0 <= i < |Fragments(s, c)| ==> c !in Fragments(s, c)[i]
    decreases |s|
  {
    if |s| > 0 {
      FragmentsNoSeparator(s[1..], c);
    }
  }

  /** Joining the pieces with the separator gives back the string. */
  lemma {:induction false} FragmentsJoin(s: string, c: char)
    ensures Join(Fragments(s, c), c) == s
    decreases |s|
  {
    if |s| > 0 {
      var rest := Fragments(s[1..], c);
      FragmentsJoin(s[1..], c);
      if s[0] == c {
        assert Fragments(s, c)[1..] == rest;
        assert [s[0]] + s[1..] == s;
      } else {
        var r := Fragments(s, c);
        assert r[0] == [s[0]] + rest[0];
        if |rest| == 1 {
          assert [s[0]] + s[1..] == s;
        } else {
          assert r[1..] == rest[1..];
          assert Join(rest, c) == rest[0] + [c] + Join(rest[1..], c);
          assert s == [s[0]] + (rest[0] + [c] + Join(rest[1..], c));
        }
      }
    }
  }

  lemma FragmentsWhole(s: string, c: char)
    requires c !in s
    ensures Fragments(s, c) == [s]
    decreases |s|
  {
    if |s| > 0 {
      FragmentsWhole(s[1..], c);
      assert [s[0]] + s[1..] == s;
    }
  }

  /** A separator splits the pieces of what comes before it from those of what comes after. */
  lemma {:induction false} FragmentsAppend(a: string, b: string, c: char)
    ensures Fragments(a + [c] + b, c) == Fragments(a, c) + Fragments(b, c)
    decreases |a|
  {
    var s := a + [c] + b;
    if |a| == 0 {
      assert s[0] == c && s[1..] == b;
    } else {
      assert s[0] == a[0] && s[1..] == a[1..] + [c] + b;
      FragmentsAppend(a[1..], b, c);
      var fa, fb := Fragments(a[1..], c), Fragments(b, c);
      if a[0] != c {
        assert (fa + fb)[0] == fa[0];
        assert (fa + fb)[1..] == fa[1..] + fb;
      }
    }
  }

  /** Every piece is empty exactly when the string is nothing but separators. */
  lemma {:induction false} FragmentsAllEmpty(s: string, c: char)
    ensures (forall i :: 0 <= i < |Fragments(s, c)| ==> Fragments(s, c)[i] == "") <==> (forall k :: 0 <= k < |s| ==> s[k] == c)
    decreases |s|
  {
    if |s| > 0 {
      FragmentsAllEmpty(s[1..], c);
      var rest := Fragments(s[1..], c);
      var r := Fragments(s, c);
      if s[0] == c {
        assert r == [""] + rest;
        assert (forall i :: 0 <= i < |r| ==> r[i] == "") <==> (forall i :: 0 <= i < |rest| ==> rest[i] == "") by {
          assert forall i :: 0 <= i < |rest| ==> rest[i] == r[i + 1];
        }
        assert (forall k :: 0 <= k < |s| ==> s[k] == c) <==> (forall k :: 0 <= k < |s[1..]| ==> s[1..][k] == c) by {
          assert forall k :: 0 <= k < |s[1..]| ==> s[1..][k] == s[k + 1];
        }
      } else {
        assert r[0] != "";
      }
    }
  }

  /** No piece of the split holds the separator. */
  lemma JavaSplitNoSeparator(s: string, c: char)
    ensures forall i :: 0 <= i < |JavaSplit(s, c)| ==> c !in JavaSplit(s, c)[i]
  {
    FragmentsNoSeparator(s, c);
  }

  /**
   * The split with the dropped trailing empty strings put back is the list of pieces, and
   * joining that with `;` gives back the script.
   */
  lemma JavaSplitRoundTrip(s: string, c: char)
    ensures var sp, fr := JavaSplit(s, c), Fragments(s, c);
      && |sp| <= |fr|
      && sp + Blanks(|fr| - |sp|) == fr
      && Join(sp + Blanks(|fr| - |sp|), c) == s
  {
    var sp, fr := JavaSplit(s, c), Fragments(s, c);
    FragmentsJoin(s, c);
    if c !in s {
      FragmentsWhole(s, c);
      assert sp + [] == fr;
    } else {
      TrimmedBlanks(fr);
    }
  }

  /** The split is empty exactly when the script is non-empty and holds nothing but `;`. */
  lemma JavaSplitEmptyIff(s: string, c: char)
    ensures |JavaSplit(s, c)| == 0 <==> |s| > 0 && forall k :: 0 <= k < |s| ==> s[k] == c
  {
    var fr := Fragments(s, c);
    FragmentsAllEmpty(s, c);
    if c in s {
      var tr := TrimTrailingEmpty(fr);
      if |tr| == 0 {
        assert forall i :: 0 <= i < |fr| ==> fr[i] == "";
      } else {
        assert tr[|tr| - 1] == fr[|tr| - 1] != "";
      }
    } else if |s| > 0 {
      assert s[0] != c;
    }
  }

  /** For a generated script, the last piece is the blank line after the final `);`. */
  lemma GeneratedScriptSplit(entities: seq<Entity>)
    requires |entities| > 0 && Script(entities).Some?
    ensures var sp := JavaSplit(Script(entities).value, ';');
      |sp| > 0 && sp[|sp| - 1] == "\n\n" && sp == Fragments(Script(entities).value, ';')
  {
    var s := Script(entities).value;
    ScriptEnding(entities);
    var p := s[..|s| - 3];
    assert s == p + [';'] + "\n\n";
    FragmentsAppend(p, "\n\n", ';');
    FragmentsWhole("\n\n", ';');
    var fr := Fragments(s, ';');
    assert fr[|fr| - 1] == "\n\n";
    assert ';' in s by {
      assert s[|s| - 3] == ';';
    }
  }

  // ---------------------------------------------------------------------------
  // executeDDL

  /**
   * The split/null-out step of `executeDDL`: the array handed to `batchUpdate` is the split
   * with its last element replaced by null (`None`). An empty split makes the assignment
   * throw ArrayIndexOutOfBoundsException; `ok` is then false.
   */
  method ExecuteDdl(resultDdl: string) returns (ok: bool, batch: array<Option<string>>)
    ensures fresh(batch)
    ensures ok <==> |JavaSplit(resultDdl, ';')| > 0
    ensures batch.Length == |JavaSplit(resultDdl, ';')|
    ensures forall i :: 0 <= i < batch.Length - 1 ==> batch[i] == Some(JavaSplit(resultDdl, ';')[i])
    ensures ok ==> batch[batch.Length - 1] == None
  {
    var split := JavaSplit(resultDdl, ';');
    batch := new Option<string>[|split|](i requires 0 <= i < |split| => Some(split[i]));
    if batch.Length == 0 {
      ok := false;
      return;
    }
    batch[batch.Length - 1] := None;
    ok := true;
  }
}
