/** What the names of a query stand for, said without the functions that take them apart. */
module TslNames {
  import opened Common
  import opened Tsl

  // ---------------------------------------------------------------------------------------
  // Paths
  // ---------------------------------------------------------------------------------------

  ghost predicate NoDots(parts: seq<string>) {
    forall i :: 0 <= i < |parts| ==> '.' !in parts[i]
  }

  lemma {:induction false} SplitJoins(s: string)
    ensures NoDots(Split(s)) && Join(Split(s), ".") == s
  {
    if s != "" {
      var rest := Split(s[1..]);
      SplitJoins(s[1..]);
      if s[0] == '.' {
        assert ([""] + rest)[1..] == rest;
      } else {
        var first := [s[0]] + rest[0];
        assert ([first] + rest[1..])[1..] == rest[1..];
        assert s == [s[0]] + s[1..];
      }
    }
  }

  /** Parts without dots that give the name when joined are the parts of the name. */
  lemma {:induction false} SplitUnique(s: string, parts: seq<string>)
    requires parts != [] && NoDots(parts) && Join(parts, ".") == s
    ensures parts == Split(s)
    decreases |s|
  {
    if s == "" {
      assert |parts| == 1;
    } else if parts[0] == "" {
      assert |parts| > 1;
      assert s == "." + Join(parts[1..], ".");
      assert s[1..] == Join(parts[1..], ".");
      SplitUnique(s[1..], parts[1..]);
    } else {
      FirstLetterOff(parts);
      var less := [parts[0][1..]] + parts[1..];
      assert s[0] == parts[0][0] && s[0] in parts[0] && s[1..] == Join(less, ".");
      SplitUnique(s[1..], less);
      assert less[0] == parts[0][1..] && less[1..] == parts[1..];
      assert parts[0] == [s[0]] + less[0];
      assert parts == [parts[0]] + parts[1..];
    }
  }

  lemma FirstLetterOff(parts: seq<string>)
    requires parts != [] && parts[0] != "" && NoDots(parts)
    ensures var less := [parts[0][1..]] + parts[1..];
            NoDots(less) && Join(parts, ".") == [parts[0][0]] + Join(less, ".")
  {
    var less := [parts[0][1..]] + parts[1..];
    assert less[1..] == parts[1..];
    assert parts[0] == [parts[0][0]] + parts[0][1..];
  }

  /** The name is a path in the spec: `spec`, then the keys, in this order. */
  ghost predicate IsPath(name: string, keys: seq<string>) {
    keys != [] && NoDots(keys) && name == "spec." + Join(keys, ".")
  }

  lemma PathMeans(name: string)
    requires HasPrefix(name, SPEC)
    ensures IsPath(name, SpecKeys(name))
    ensures forall keys :: IsPath(name, keys) ==> keys == SpecKeys(name)
  {
    SplitJoins(name[|SPEC|..]);
    assert name == SPEC + name[|SPEC|..];
    forall keys | IsPath(name, keys) ensures keys == SpecKeys(name) {
      assert name[|SPEC|..] == Join(keys, ".");
      SplitUnique(name[|SPEC|..], keys);
    }
  }

  // ---------------------------------------------------------------------------------------
  // Conditions and labels
  // ---------------------------------------------------------------------------------------

  ghost predicate IsLabelOf(name: string, key: string) {
    name == "labels." + key
  }

  /** The name is a condition type, and what follows it. */
  ghost predicate IsConditionOf(name: string, ctype: string, rest: string) {
    name == "status.conditions." + ctype + rest && '.' !in ctype && (rest == "" || rest[0] == '.')
  }

  /** A single part after the type names a subfield; without it the status is meant. */
  function SubfieldOf(rest: string): string {
    if rest != "" && '.' !in rest[1..] then rest[1..] else "status"
  }

  lemma LabelMeans(name: string)
    ensures IsLabel(name) <==> exists key :: IsLabelOf(name, key)
    ensures forall key :: IsLabelOf(name, key) ==> key == name[|LABELS|..]
  {
    if IsLabel(name) { assert IsLabelOf(name, name[|LABELS|..]); }
  }

  /** Where the first dot is, the type ends. */
  lemma {:induction false} UpToDot(s: string) returns (head: string, tail: string)
    ensures s == head + tail && '.' !in head && (tail == "" || tail[0] == '.')
  {
    if s == "" || s[0] == '.' {
      head, tail := "", s;
    } else {
      var h, t := UpToDot(s[1..]);
      head, tail := [s[0]] + h, t;
    }
  }

  lemma HeadSplit(head: string, tail: string)
    requires '.' !in head
    ensures Split(head) == [head]
    ensures Split(head + "." + tail) == [head] + Split(tail)
  {
    SplitUnique(head, [head]);
    var parts := [head] + Split(tail);
    SplitJoins(tail);
    assert parts[1..] == Split(tail);
    SplitUnique(head + "." + tail, parts);
  }

  lemma OnePart(s: string)
    ensures |Split(s)| == 1 <==> '.' !in s
    ensures '.' !in s ==> Split(s) == [s]
  {
    SplitJoins(s);
    if '.' !in s { SplitUnique(s, [s]); }
  }

  lemma PartsMean(name: string, ctype: string, rest: string)
    requires IsConditionOf(name, ctype, rest)
    ensures IsCondition(name)
    ensures ConditionParts(name) == if rest == "" then [ctype] else [ctype] + Split(rest[1..])
  {
    assert name[|CONDITIONS|..] == ctype + rest;
    if rest == "" {
      assert ctype + rest == ctype;
      HeadSplit(ctype, "");
    } else {
      assert ctype + rest == ctype + "." + rest[1..];
      HeadSplit(ctype, rest[1..]);
    }
  }

  lemma ConditionMeans(name: string, ctype: string, rest: string)
    requires IsConditionOf(name, ctype, rest)
    ensures IsCondition(name) && ConditionParts(name)[0] == ctype && Subfield(name) == SubfieldOf(rest)
  {
    PartsMean(name, ctype, rest);
    if rest != "" { OnePart(rest[1..]); }
  }

  lemma ConditionNamed(name: string) returns (ctype: string, rest: string)
    requires IsCondition(name)
    ensures IsConditionOf(name, ctype, rest)
  {
    ctype, rest := UpToDot(name[|CONDITIONS|..]);
    assert name == CONDITIONS + name[|CONDITIONS|..];
  }

  // ---------------------------------------------------------------------------------------
  // Columns
  // ---------------------------------------------------------------------------------------

  ghost predicate AllSpace(s: string) {
    forall i :: 0 <= i < |s| ==> IsSpace(s[i])
  }

  /** The name with all white space taken off at both ends, and nothing else. */
  ghost predicate IsTrimmed(name: string, core: string) {
    && (core == "" || (!IsSpace(core[0]) && !IsSpace(core[|core| - 1])))
    && exists before, after :: AllSpace(before) && AllSpace(after) && name == before + core + after
  }

  lemma {:induction false} TrimLeftMeans(s: string) returns (before: string)
    ensures AllSpace(before) && s == before + TrimLeft(s)
    ensures TrimLeft(s) == "" || !IsSpace(TrimLeft(s)[0])
  {
    if s != "" && IsSpace(s[0]) {
      var more := TrimLeftMeans(s[1..]);
      before := [s[0]] + more;
    } else {
      before := "";
    }
  }

  lemma {:induction false} TrimRightMeans(s: string) returns (after: string)
    ensures AllSpace(after) && s == TrimRight(s) + after
    ensures TrimRight(s) == "" || !IsSpace(TrimRight(s)[|TrimRight(s)| - 1])
  {
    if s != "" && IsSpace(s[|s| - 1]) {
      var more := TrimRightMeans(s[..|s| - 1]);
      after := more + [s[|s| - 1]];
    } else {
      after := "";
    }
  }

  lemma TrimMeans(name: string)
    ensures IsTrimmed(name, TrimSpace(name))
  {
    var left := TrimLeft(name);
    var before := TrimLeftMeans(name);
    var after := TrimRightMeans(left);
    assert name == before + TrimSpace(name) + after;
    if TrimSpace(name) != "" { assert TrimSpace(name)[0] == left[0]; }
  }

  lemma {:induction false} TrimLeftOff(before: string, s: string)
    requires AllSpace(before)
    ensures TrimLeft(before + s) == TrimLeft(s)
  {
    if before == "" {
      assert before + s == s;
    } else {
      assert (before + s)[1..] == before[1..] + s;
      TrimLeftOff(before[1..], s);
    }
  }

  lemma {:induction false} TrimRightOff(s: string, after: string)
    requires AllSpace(after)
    ensures TrimRight(s + after) == TrimRight(s)
  {
    if after == "" {
      assert s + after == s;
    } else {
      var n := |after| - 1;
      assert (s + after)[..|s + after| - 1] == s + after[..n];
      TrimRightOff(s, after[..n]);
    }
  }

  lemma TrimUnique(name: string, core: string)
    requires IsTrimmed(name, core)
    ensures core == TrimSpace(name)
  {
    var before, after :| AllSpace(before) && AllSpace(after) && name == before + core + after;
    assert name == before + (core + after);
    TrimLeftOff(before, core + after);
    if core == "" {
      assert core + after == after;
      TrimLeftOff(after, "");
      assert after + "" == after;
    } else {
      assert (core + after)[0] == core[0];
      TrimRightOff(core, after);
    }
  }
}
