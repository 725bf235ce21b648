/** Query-side name normalisation: `capitalize_name` and
    `standardize_capitalization_in_list`. Names stored by the importer are never
    passed through here. */
module Names {
  import opened Text

  /** The canonical case of a drug name: the first character is not a
      lower-case letter and no later character is an upper-case letter. */
  predicate IsCapitalized(s: string)
  {
    && (|s| > 0 ==> !IsLower(s[0]))
    && forall i :: 1 <= i < |s| ==> !IsUpper(s[i])
  }

  /** Two strings that differ at most in the case of ASCII letters. */
  predicate EqualIgnoringCase(a: string, b: string)
  {
    |a| == |b| && forall i :: 0 <= i < |a| ==> SameLetter(a[i], b[i])
  }

  /** `capitalize_name`: lower-case the whole name, then upper-case its first
      character (the slice `[:1]` is empty for the empty name). */
  function CapitalizeName(name: string): string
  {
    var lowered := Lower(name);
    var head := if |lowered| == 0 then 0 else 1;
    Upper(lowered[..head]) + lowered[head..]
  }

  /** The normalised name is the same name, of the same length, in canonical case. */
  lemma CapitalizeNameIsCanonicalCase(name: string)
    ensures |CapitalizeName(name)| == |name|
    ensures IsCapitalized(CapitalizeName(name))
    ensures EqualIgnoringCase(name, CapitalizeName(name))
    ensures name == [] ==> CapitalizeName(name) == []
  {
  }

  /** Two characters equal up to case and both in the same canonical case are equal. */
  lemma SameLetterSameCase(a: char, b: char)
    requires SameLetter(a, b)
    requires (!IsLower(a) && !IsLower(b)) || (!IsUpper(a) && !IsUpper(b))
    ensures a == b
  {
  }

  /** A name already in canonical case is left as it is. */
  lemma CapitalizedIsFixpoint(s: string)
    requires IsCapitalized(s)
    ensures CapitalizeName(s) == s
  {
    var r := CapitalizeName(s);
    CapitalizeNameIsCanonicalCase(s);
    forall i | 0 <= i < |s| ensures r[i] == s[i] {
      if i == 0 {
        SameLetterSameCase(s[0], r[0]);
      } else {
        SameLetterSameCase(s[i], r[i]);
      }
    }
  }

  /** Normalising twice is normalising once. */
  lemma CapitalizeIdempotent(s: string)
    ensures CapitalizeName(CapitalizeName(s)) == CapitalizeName(s)
  {
    CapitalizeNameIsCanonicalCase(s);
    CapitalizedIsFixpoint(CapitalizeName(s));
  }

  /** `CapitalizeName(s)` is the one and only string in canonical case that
      spells `s` up to case. */
  lemma CapitalizeIsCanonical(s: string, t: string)
    ensures t == CapitalizeName(s) <==> IsCapitalized(t) && EqualIgnoringCase(s, t)
  {
    CapitalizeNameIsCanonicalCase(s);
    if IsCapitalized(t) && EqualIgnoringCase(s, t) {
      var r := CapitalizeName(s);
      forall i | 0 <= i < |t| ensures r[i] == t[i] {
        assert SameLetter(r[i], t[i]);
        SameLetterSameCase(r[i], t[i]);
      }
    }
  }

  /** `standardize_capitalization_in_list`: a new list, element by element in
      the same order, of the normalised names. */
  method StandardizeCapitalizationInList(drugList: seq<string>) returns (newDrugList: seq<string>)
    ensures |newDrugList| == |drugList|
    ensures forall k :: 0 <= k < |drugList| ==> newDrugList[k] == CapitalizeName(drugList[k])
  {
    newDrugList := [];
    for i := 0 to |drugList|
      invariant |newDrugList| == i
      invariant forall k :: 0 <= k < i ==> newDrugList[k] == CapitalizeName(drugList[k])
    {
      newDrugList := newDrugList + [CapitalizeName(drugList[i])];
    }
  }
}
