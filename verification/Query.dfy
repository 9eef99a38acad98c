/**
 * Classification of the `--statement` argument (`Main.readQuery`): a
 * classpath resource, a file, or the SQL text itself. Loading the resource
 * or the file is I/O and is not part of this model.
 */
module Query {

  /** What `readQuery` does with its argument. */
  datatype QueryRef =
    | Classpath(path: string)   // `^(classpath|cp):(.+)` matched; `path` is group 2
    | File(path: string)        // `^file(path)?:(.+)` matched; `path` is group 2
    | Literal(text: string)     // neither matched; the argument is the SQL

  /** The characters `java.util.regex` treats as line terminators when no flags are set. */
  predicate IsLineTerminator(c: char) {
    c == '\n' || c == '\r' || c == '\U{0085}' || c == '\U{2028}' || c == '\U{2029}'
  }

  /** Whole-string match of `.+`: non-empty and free of line terminators. */
  predicate DotPlus(s: string) {
    |s| > 0 && forall i :: 0 <= i < |s| ==> !IsLineTerminator(s[i])
  }

  /** `Pattern.compile("^(classpath|cp):(.+)").matcher(s).matches()`, with `rest` as group 2. */
  ghost predicate ClasspathMatch(s: string, rest: string) {
    (s == "classpath:" + rest || s == "cp:" + rest) && DotPlus(rest)
  }

  /** `Pattern.compile("^file(path)?:(.+)").matcher(s).matches()`, with `rest` as group 2. */
  ghost predicate FilepathMatch(s: string, rest: string) {
    (s == "file:" + rest || s == "filepath:" + rest) && DotPlus(rest)
  }

  predicate StartsWith(s: string, prefix: string) {
    |prefix| <= |s| && s[..|prefix|] == prefix
  }

  /** The remainder after `prefix` when it is a valid group 2. */
  predicate RestAfter(s: string, prefix: string) {
    StartsWith(s, prefix) && DotPlus(s[|prefix|..])
  }

  /**
   * `readQuery`'s decision: the classpath pattern is tried first, then the
   * file pattern, and otherwise the argument is returned unchanged.
   */
  function Classify(s: string): (q: QueryRef)
    ensures q.Classpath? <==> exists rest :: ClasspathMatch(s, rest)
    ensures q.Classpath? ==> ClasspathMatch(s, q.path)
    ensures q.File? <==> (!exists rest :: ClasspathMatch(s, rest)) && exists rest :: FilepathMatch(s, rest)
    ensures q.File? ==> FilepathMatch(s, q.path)
    ensures q.Literal? ==> q.text == s
  {
    PrefixSplit(s, "classpath:");
    PrefixSplit(s, "cp:");
    PrefixSplit(s, "file:");
    PrefixSplit(s, "filepath:");
    if RestAfter(s, "classpath:") then assert ClasspathMatch(s, s[10..]); Classpath(s[10..])
    else if RestAfter(s, "cp:") then assert ClasspathMatch(s, s[3..]); Classpath(s[3..])
    else if RestAfter(s, "file:") then assert FilepathMatch(s, s[5..]); File(s[5..])
    else if RestAfter(s, "filepath:") then assert FilepathMatch(s, s[9..]); File(s[9..])
    else Literal(s)
  }

  /** `s` is `prefix + rest` exactly when `s` starts with `prefix` and `rest` is what follows. */
  lemma PrefixSplit(s: string, prefix: string)
    ensures forall rest :: s == prefix + rest <==> StartsWith(s, prefix) && rest == s[|prefix|..]
  {
    forall rest
      ensures s == prefix + rest <==> StartsWith(s, prefix) && rest == s[|prefix|..]
    {
      if StartsWith(s, prefix) && rest == s[|prefix|..] {
        assert s == s[..|prefix|] + s[|prefix|..];
      }
    }
  }

  /** Group 2 of the classpath pattern is determined by the input. */
  lemma ClasspathGroupUnique(s: string, a: string, b: string)
    requires ClasspathMatch(s, a) && ClasspathMatch(s, b)
    ensures a == b
  {
    var p := if s == "classpath:" + a then "classpath:" else "cp:";
    var q := if s == "classpath:" + b then "classpath:" else "cp:";
    PrefixesDistinguishable(p, q, a, b);
  }

  /** Group 2 of the file pattern is determined by the input. */
  lemma FilepathGroupUnique(s: string, a: string, b: string)
    requires FilepathMatch(s, a) && FilepathMatch(s, b)
    ensures a == b
  {
    var p := if s == "file:" + a then "file:" else "filepath:";
    var q := if s == "file:" + b then "file:" else "filepath:";
    PrefixesDistinguishable(p, q, a, b);
  }

  /** The prefixes `readQuery` recognises; none is a prefix of another. */
  const PREFIXES: seq<string> := ["classpath:", "cp:", "file:", "filepath:"]

  /** Splitting an input at a recognised prefix can be done in one way only. */
  lemma PrefixesDistinguishable(p: string, q: string, a: string, b: string)
    requires p in PREFIXES && q in PREFIXES && p + a == q + b
    ensures p == q && a == b
  {
    if p != q {
      var i := FirstDifference(p, q);
    }
    assert a == (p + a)[|p|..] == (q + b)[|q|..] == b;
  }

  /** Two different recognised prefixes disagree at some position both of them have. */
  lemma FirstDifference(p: string, q: string) returns (i: nat)
    requires p in PREFIXES && q in PREFIXES && p != q
    ensures i < |p| && i < |q| && p[i] != q[i]
  {
    assert p == PREFIXES[0] || p == PREFIXES[1] || p == PREFIXES[2] || p == PREFIXES[3];
    assert q == PREFIXES[0] || q == PREFIXES[1] || q == PREFIXES[2] || q == PREFIXES[3];
    if p[0] != q[0] {
      i := 0;
    } else if p[1] != q[1] {
      i := 1;
    } else {
      i := 4;
    }
  }

  /**
   * A recognised prefix followed by nothing, or by text holding a line
   * terminator, fails the whole-string match and is kept as literal SQL.
   */
  lemma BadRemainderIsLiteral(prefix: string, rest: string)
    requires prefix in PREFIXES
    requires |rest| == 0 || exists i :: 0 <= i < |rest| && IsLineTerminator(rest[i])
    ensures Classify(prefix + rest) == Literal(prefix + rest)
  {
    var s := prefix + rest;
    forall other | ClasspathMatch(s, other) || FilepathMatch(s, other)
      ensures false
    {
      var p :| p in PREFIXES && s == p + other;
      PrefixesDistinguishable(prefix, p, rest, other);
    }
  }

  /** `cp:X` and `classpath:X` name the classpath resource `X`, for any valid `X`. */
  lemma ClasspathPrefixed(rest: string)
    requires DotPlus(rest)
    ensures Classify("cp:" + rest) == Classpath(rest)
    ensures Classify("classpath:" + rest) == Classpath(rest)
  {
    assert ClasspathMatch("cp:" + rest, rest);
    assert ClasspathMatch("classpath:" + rest, rest);
    ClasspathGroupUnique("cp:" + rest, Classify("cp:" + rest).path, rest);
    ClasspathGroupUnique("classpath:" + rest, Classify("classpath:" + rest).path, rest);
  }

  /** `file:X` and `filepath:X` name the file `X`, for any valid `X`. */
  lemma FilePrefixed(rest: string)
    requires DotPlus(rest)
    ensures Classify("file:" + rest) == File(rest)
    ensures Classify("filepath:" + rest) == File(rest)
  {
    FileNotClasspath("file:", rest);
    FileNotClasspath("filepath:", rest);
    assert FilepathMatch("file:" + rest, rest);
    assert FilepathMatch("filepath:" + rest, rest);
    FilepathGroupUnique("file:" + rest, Classify("file:" + rest).path, rest);
    FilepathGroupUnique("filepath:" + rest, Classify("filepath:" + rest).path, rest);
  }

  lemma FileNotClasspath(prefix: string, rest: string)
    requires prefix == "file:" || prefix == "filepath:"
    ensures !exists other :: ClasspathMatch(prefix + rest, other)
  {
    forall other | ClasspathMatch(prefix + rest, other)
      ensures false
    {
      var p := if prefix + rest == "classpath:" + other then "classpath:" else "cp:";
      PrefixesDistinguishable(prefix, p, rest, other);
    }
  }

  /** An input that starts with none of the recognised prefixes is the SQL itself. */
  lemma UnprefixedIsLiteral(s: string)
    requires forall i :: 0 <= i < |PREFIXES| ==> !StartsWith(s, PREFIXES[i])
    ensures Classify(s) == Literal(s)
  {
    PrefixSplit(s, PREFIXES[0]);
    PrefixSplit(s, PREFIXES[1]);
    PrefixSplit(s, PREFIXES[2]);
    PrefixSplit(s, PREFIXES[3]);
  }

  /** The literal case of the unit test. */
  lemma ClassifyLiteralExample()
    ensures Classify("foo bar") == Literal("foo bar")
  {
    var s := "foo bar";
    assert s[0] == 'f' && s[1] == 'o';
    assert !StartsWith(s, PREFIXES[0]) by { assert PREFIXES[0][0] == 'c'; }
    assert !StartsWith(s, PREFIXES[1]) by { assert PREFIXES[1][0] == 'c'; }
    assert !StartsWith(s, PREFIXES[2]) by { assert s[..5][1] == 'o' && PREFIXES[2][1] == 'i'; }
    assert !StartsWith(s, PREFIXES[3]);
    UnprefixedIsLiteral(s);
  }
}
