/** Splitting text at a character and joining it again (OCaml's `String.split_on_char` and `String.concat`), and looking for a part of it. */
module Strings {
  function Split(s: string, sep: char): (parts: seq<string>)
    ensures parts != []
    ensures forall i :: 0 <= i < |parts| ==> sep !in parts[i]
  {
    if s == "" then [""]
    else
      var rest := Split(s[1..], sep);
      if s[0] == sep then [""] + rest else [[s[0]] + rest[0]] + rest[1..]
  }

  function Join(parts: seq<string>, sep: char): string {
    if parts == [] then "" else if |parts| == 1 then parts[0] else parts[0] + [sep] + Join(parts[1..], sep)
  }

  /** Joining what was split gives the text back. */
  lemma {:induction false} JoinSplit(s: string, sep: char)
    ensures Join(Split(s, sep), sep) == s
  {
    if s != "" {
      JoinSplit(s[1..], sep);
      var rest := Split(s[1..], sep);
      if s[0] == sep {
        assert ([""] + rest)[1..] == rest;
      } else {
        var parts := [[s[0]] + rest[0]] + rest[1..];
        if |rest| > 1 {
          assert parts[1..] == rest[1..];
          assert Join(parts, sep) == [s[0]] + Join(rest, sep);
        }
      }
      assert s == [s[0]] + s[1..];
    }
  }

  lemma {:induction false} SplitWithout(s: string, sep: char)
    requires sep !in s
    ensures Split(s, sep) == [s]
  {
    if s != "" {
      SplitWithout(s[1..], sep);
      var rest := Split(s[1..], sep);
      assert [s[0]] + rest[0] == s && rest[1..] == [];
    }
  }

  // ------------------------------------------------------------------ occurrences

  predicate OccursAt(part: string, text: string, i: nat) {
    i + |part| <= |text| && text[i..i + |part|] == part
  }

  predicate OccursFrom(part: string, text: string, i: nat)
    decreases |text| - i
  {
    if i + |part| > |text| then false
    else OccursAt(part, text, i) || OccursFrom(part, text, i + 1)
  }

  lemma {:induction false} OccursFromIff(part: string, text: string, i: nat)
    ensures OccursFrom(part, text, i) <==> exists j: nat :: i <= j && OccursAt(part, text, j)
    decreases |text| - i
  {
    if i + |part| <= |text| {
      OccursFromIff(part, text, i + 1);
    }
  }
}
