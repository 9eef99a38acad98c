/** Naming of the checksum file written next to the export. */
module Checksum {
  import Seqs

  /** `String.replaceAll("-", "")`: the name without any `-`, other characters in order. */
  function RemoveDashes(s: string): string {
    if |s| == 0 then ""
    else (if s[0] == '-' then "" else [s[0]]) + RemoveDashes(s[1..])
  }

  predicate IsUpperAscii(c: char) {
    'A' <= c <= 'Z'
  }

  /** `Character.toLowerCase` restricted to ASCII letters. */
  function LowerChar(c: char): char {
    if IsUpperAscii(c) then (c as int + 32) as char else c
  }

  function LowerAscii(s: string): (r: string)
    ensures |r| == |s|
    ensures forall i :: 0 <= i < |r| ==> !IsUpperAscii(r[i])
    ensures forall i :: 0 <= i < |r| ==> (r[i] == s[i] || (IsUpperAscii(s[i]) && r[i] as int == s[i] as int + 32))
  {
    seq(|s|, i requires 0 <= i < |s| => LowerChar(s[i]))
  }

  /**
   * The extension of the checksum file: the digest's algorithm name with
   * every `-` removed, then lower-cased.
   */
  function AlgorithmSuffix(algorithm: string): (r: string)
    ensures '-' !in r
    ensures forall i :: 0 <= i < |r| ==> !IsUpperAscii(r[i])
    ensures |r| == |algorithm| - multiset(algorithm)['-']
  {
    var kept := RemoveDashes(algorithm);
    RemoveDashesSpec(algorithm);
    var r := LowerAscii(kept);
    assert forall i :: 0 <= i < |r| ==> r[i] != '-' by {
      forall i | 0 <= i < |r| ensures r[i] != '-' {
        assert kept[i] in kept;
      }
    }
    r
  }

  /**
   * Dash removal leaves no `-`, shortens the name by its number of dashes,
   * and leaves a dash-free name unchanged.
   */
  lemma {:induction false} RemoveDashesSpec(s: string)
    ensures '-' !in RemoveDashes(s)
    ensures |RemoveDashes(s)| == |s| - multiset(s)['-']
    ensures '-' !in s ==> RemoveDashes(s) == s
  {
    if |s| > 0 {
      RemoveDashesSpec(s[1..]);
      assert s == [s[0]] + s[1..];
      assert multiset(s) == multiset([s[0]]) + multiset(s[1..]);
    }
  }

  /**
   * The path of the checksum file: the output path, a dot, and the
   * algorithm suffix.
   */
  function ChecksumPath(out: string, algorithm: string): (p: string)
    ensures |p| == |out| + 1 + |AlgorithmSuffix(algorithm)|
    ensures p[..|out|] == out && p[|out|] == '.' && p[|out| + 1..] == AlgorithmSuffix(algorithm)
  {
    out + "." + AlgorithmSuffix(algorithm)
  }

  /** Dash removal distributes over concatenation. */
  lemma {:induction false} RemoveDashesAppend(a: string, b: string)
    ensures RemoveDashes(a + b) == RemoveDashes(a) + RemoveDashes(b)
  {
    if |a| == 0 {
      assert a + b == b;
    } else {
      RemoveDashesAppend(a[1..], b);
      assert (a + b)[1..] == a[1..] + b;
      assert (a + b)[0] == a[0];
      Seqs.ConcatAssoc(if a[0] == '-' then "" else [a[0]], RemoveDashes(a[1..]), RemoveDashes(b));
    }
  }

  /** A single character survives dash removal unless it is `-`. */
  lemma RemoveDashesChar(c: char)
    ensures RemoveDashes([c]) == if c == '-' then "" else [c]
  {
    assert [c][1..] == [];
  }

  /**
   * The suffix is computed character by character: a `-` contributes
   * nothing and any other character contributes its lower-case form, in the
   * order of the name. Together these two facts determine the suffix of
   * every name.
   */
  lemma SuffixOfChar(c: char)
    ensures AlgorithmSuffix([c]) == if c == '-' then "" else [LowerChar(c)]
  {
    RemoveDashesChar(c);
  }

  lemma SuffixAppend(a: string, b: string)
    ensures AlgorithmSuffix(a + b) == AlgorithmSuffix(a) + AlgorithmSuffix(b)
  {
    RemoveDashesAppend(a, b);
    LowerAppend(RemoveDashes(a), RemoveDashes(b));
  }

  lemma LowerAppend(a: string, b: string)
    ensures LowerAscii(a + b) == LowerAscii(a) + LowerAscii(b)
  {
  }

  /** Removing dashes from a lower-cased name is the same as lower-casing after removing them. */
  lemma {:induction false} LowerThenRemoveCommutes(s: string)
    ensures RemoveDashes(LowerAscii(s)) == LowerAscii(RemoveDashes(s))
  {
    if |s| > 0 {
      LowerThenRemoveCommutes(s[1..]);
      assert LowerAscii(s)[1..] == LowerAscii(s[1..]);
      assert LowerAscii(s)[0] == LowerChar(s[0]);
      LowerAppend(if s[0] == '-' then "" else [s[0]], RemoveDashes(s[1..]));
    }
  }

  /** The suffix does not depend on the case of the name. */
  lemma SuffixIgnoresCase(algorithm: string)
    ensures AlgorithmSuffix(LowerAscii(algorithm)) == AlgorithmSuffix(algorithm)
  {
    LowerThenRemoveCommutes(algorithm);
    LowerIdempotent(RemoveDashes(algorithm));
  }

  /** The suffix does not depend on the dashes in the name. */
  lemma SuffixIgnoresDashes(algorithm: string)
    ensures AlgorithmSuffix(RemoveDashes(algorithm)) == AlgorithmSuffix(algorithm)
  {
    RemoveDashesSpec(algorithm);
    RemoveDashesSpec(RemoveDashes(algorithm));
  }

  /** Deriving a suffix from a suffix changes nothing. */
  lemma SuffixIdempotent(algorithm: string)
    ensures AlgorithmSuffix(AlgorithmSuffix(algorithm)) == AlgorithmSuffix(algorithm)
  {
    var r := AlgorithmSuffix(algorithm);
    RemoveDashesSpec(r);
    assert RemoveDashes(r) == r;
    LowerIdempotent(RemoveDashes(algorithm));
  }

  lemma LowerIdempotent(s: string)
    ensures LowerAscii(LowerAscii(s)) == LowerAscii(s)
  {
  }

  lemma LowerSha256()
    ensures LowerAscii("SHA256") == "sha256"
  {
    var r := LowerAscii("SHA256");
    assert r[0] == 's' && r[1] == 'h' && r[2] == 'a';
    assert r[3] == '2' && r[4] == '5' && r[5] == '6';
  }

  /** A single dash between two dash-free parts is dropped and the parts are joined. */
  lemma RemoveOneDash(x: string, y: string)
    requires '-' !in x && '-' !in y
    ensures RemoveDashes(x + "-" + y) == x + y
  {
    assert RemoveDashes(x + "-") == x by {
      RemoveDashesAppend(x, "-");
      RemoveDashesChar('-');
      RemoveDashesSpec(x);
      assert x + "" == x;
    }
    RemoveDashesAppend(x + "-", y);
    RemoveDashesSpec(y);
  }

  lemma RemoveDashesSha256()
    ensures RemoveDashes("SHA-256") == "SHA256"
  {
    RemoveOneDash("SHA", "256");
    assert "SHA" + "-" + "256" == "SHA-256";
    assert "SHA" + "256" == "SHA256";
  }

  lemma SuffixSha256()
    ensures AlgorithmSuffix("SHA-256") == "sha256"
  {
    RemoveDashesSha256();
    LowerSha256();
  }

  /** The default algorithm `SHA-256` gives the `.sha256` file of the unit test. */
  lemma Sha256Path(out: string)
    ensures ChecksumPath(out, "SHA-256") == out + "." + "sha256"
  {
    SuffixSha256();
  }
}
