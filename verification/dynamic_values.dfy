/** `scan_for_dynamic_values`: the environment placeholders a text uses,
    and markers for the `secrets:` and `configs:` references it holds. */
module DynamicValues {
  import opened Text

  /** The character class `[A-Z0-9_:-]` of `env_var_pattern`. */
  predicate IsPlaceholderChar(c: char)
  {
    ('A' <= c <= 'Z') || ('0' <= c <= '9') || c == '_' || c == ':' || c == '-'
  }

  /** A whole match of `\$\{[A-Z0-9_:-]+\}`. */
  predicate IsPlaceholder(x: string)
  {
    && |x| >= 4
    && x[0] == '$' && x[1] == '{' && x[|x| - 1] == '}'
    && forall k :: 2 <= k < |x| - 1 ==> IsPlaceholderChar(x[k])
  }

  const VolumePath := "${VOLUME_PATH}"

  /** Number of class characters starting at `i`. */
  function RunLength(s: string, i: nat): (n: nat)
    requires i <= |s|
    ensures i + n <= |s|
    ensures forall k :: i <= k < i + n ==> IsPlaceholderChar(s[k])
    ensures i + n < |s| ==> !IsPlaceholderChar(s[i + n])
    decreases |s| - i
  {
    if i == |s| || !IsPlaceholderChar(s[i]) then 0 else 1 + RunLength(s, i + 1)
  }

  /** Length of the match of `env_var_pattern` starting at `i`, or 0 when
      none starts there. The class holds no `}`, so the greedy run of class
      characters is the only candidate. */
  function MatchLength(s: string, i: nat): (n: nat)
    requires i <= |s|
    ensures i + n <= |s|
    ensures n > 0 ==> IsPlaceholder(s[i..i + n])
  {
    if i + 1 < |s| && s[i] == '$' && s[i + 1] == '{' then
      var run := RunLength(s, i + 2);
      if run > 0 && i + 2 + run < |s| && s[i + 2 + run] == '}' then run + 3 else 0
    else 0
  }

  /** A placeholder that occurs at `j` is exactly the match found there. */
  lemma MatchComplete(s: string, x: string, j: nat)
    requires IsPlaceholder(x) && OccursAt(s, x, j)
    ensures MatchLength(s, j) == |x|
  {
    assert forall k :: 0 <= k < |x| ==> s[j + k] == x[k];
    assert forall k :: j + 2 <= k < j + |x| - 1 ==> IsPlaceholderChar(s[k]);
    assert !IsPlaceholderChar(s[j + |x| - 1]);
  }

  /** No placeholder starts strictly inside a match: a match holds `$` only
      at its start. */
  lemma NoMatchInside(s: string, i: nat, x: string, j: nat)
    requires i <= |s| && MatchLength(s, i) > 0
    requires i < j < i + MatchLength(s, i)
    requires IsPlaceholder(x)
    ensures !OccursAt(s, x, j)
  {
    var n := MatchLength(s, i);
    assert s[i..i + n][j - i] == s[j];
    assert s[j] != x[0];
    if j + |x| <= |s| {
      assert s[j..j + |x|][0] == s[j];
    }
  }

  /** `x` occurs in `s` at some index `j >= i`. */
  ghost predicate OccursFrom(s: string, x: string, i: nat)
  {
    exists j :: i <= j && OccursAt(s, x, j)
  }

  /** `set(re.findall(env_var_pattern, s[i:]))`: the scan tries each index
      in turn and resumes after the end of every match it takes. */
  function FindAll(s: string, i: nat): set<string>
    requires i <= |s|
    decreases |s| - i
  {
    if i == |s| then {}
    else
      var n := MatchLength(s, i);
      if n > 0 then {s[i..i + n]} + FindAll(s, i + n) else FindAll(s, i + 1)
  }

  /** The scan misses nothing and finds nothing else: its result is exactly
      the set of placeholders that occur from `i` on. */
  lemma {:induction false} FindAllLaw(s: string, i: nat)
    requires i <= |s|
    ensures forall x :: x in FindAll(s, i) <==> IsPlaceholder(x) && OccursFrom(s, x, i)
    decreases |s| - i
  {
    if i == |s| {
      forall x | IsPlaceholder(x)
        ensures !OccursFrom(s, x, i)
      {
      }
    } else {
      var n := MatchLength(s, i);
      if n > 0 {
        FindAllLaw(s, i + n);
        assert OccursAt(s, s[i..i + n], i);
        forall x | IsPlaceholder(x) && OccursFrom(s, x, i)
          ensures x in FindAll(s, i)
        {
          var j :| i <= j && OccursAt(s, x, j);
          if j == i {
            MatchComplete(s, x, j);
          } else if j < i + n {
            NoMatchInside(s, i, x, j);
          } else {
            assert OccursFrom(s, x, i + n);
          }
        }
      } else {
        FindAllLaw(s, i + 1);
        forall x | IsPlaceholder(x) && OccursFrom(s, x, i)
          ensures OccursFrom(s, x, i + 1)
        {
          var j :| i <= j && OccursAt(s, x, j);
          if j == i {
            MatchComplete(s, x, j);
          }
        }
      }
    }
  }

  /** `scan_for_dynamic_values(file_content)`. */
  function ScanDynamicValues(content: string): (values: set<string>)
  {
    FindAll(content, 0)
    + (if Contains(content, "secrets:") then {"secrets"} else {})
    + (if Contains(content, "configs:") then {"configs"} else {})
    + (if Contains(content, VolumePath) then {VolumePath} else {})
  }

  /** The scan result is exactly: every placeholder that occurs in the text,
      `secrets` when `secrets:` occurs, and `configs` when `configs:` occurs.
      `${VOLUME_PATH}` is itself a placeholder, so its separate search adds
      nothing the placeholder search has not found. */
  lemma ScanDynamicValuesLaw(content: string)
    ensures forall x :: x in ScanDynamicValues(content) <==>
              || (IsPlaceholder(x) && Occurs(content, x))
              || (x == "secrets" && Occurs(content, "secrets:"))
              || (x == "configs" && Occurs(content, "configs:"))
  {
    FindAllLaw(content, 0);
    ContainsIff(content, "secrets:");
    ContainsIff(content, "configs:");
    ContainsIff(content, VolumePath);
    assert IsPlaceholder(VolumePath);
    forall x ensures OccursFrom(content, x, 0) <==> Occurs(content, x)
    {
      if Occurs(content, x) {
        var j :| OccursAt(content, x, j);
        assert 0 <= j;
      }
    }
  }

  /** Every scanned value fits on one line. */
  lemma ScanNoLineBreak(content: string)
    ensures forall x :: x in ScanDynamicValues(content) ==> NoLineBreak(x)
  {
    ScanDynamicValuesLaw(content);
    PrintableNoLineBreak("secrets");
    PrintableNoLineBreak("configs");
    forall x | x in ScanDynamicValues(content)
      ensures NoLineBreak(x)
    {
      if IsPlaceholder(x) {
        PlaceholderNoLineBreak(x);
      }
    }
  }

  lemma PlaceholderNoLineBreak(x: string)
    requires IsPlaceholder(x)
    ensures NoLineBreak(x)
  {
    forall k | 0 <= k < |x|
      ensures !IsLineBreak(x[k])
    {
      if 2 <= k < |x| - 1 {
        assert IsPlaceholderChar(x[k]);
      }
    }
  }
}
