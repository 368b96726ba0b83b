/**
 * Which arguments of a compiler invocation name source files. Both proxies
 * (cc.c and cdcc.c) carry the same suffix table and the same scan; this module
 * states it once and gives an independent, index-based description of what the
 * scan selects.
 */
module Classifier {
  import opened Text

  /** The `known_types` table (cc.c:15-23, cdcc.c:11-19). */
  const KNOWN_TYPES: seq<string> := [".h", ".hpp", ".c", ".cc", ".cxx", ".cpp"]

  function HasAnySuffix(name: string, suffixes: seq<string>): (r: bool)
    ensures r <==> exists k :: 0 <= k < |suffixes| && HasSuffix(name, suffixes[k])
  {
    if suffixes == [] then false
    else HasSuffix(name, suffixes[0]) || HasAnySuffix(name, suffixes[1..])
  }

  /** `is_known_type`: the name ends in one of the six C/C++ source or header suffixes. */
  function IsKnownType(name: string): (r: bool)
    ensures r <==> HasSuffix(name, ".h") || HasSuffix(name, ".hpp") || HasSuffix(name, ".c") ||
                   HasSuffix(name, ".cc") || HasSuffix(name, ".cxx") || HasSuffix(name, ".cpp")
  {
    var r := HasAnySuffix(name, KNOWN_TYPES);
    assert KNOWN_TYPES[0] == ".h" && KNOWN_TYPES[1] == ".hpp" && KNOWN_TYPES[2] == ".c";
    assert KNOWN_TYPES[3] == ".cc" && KNOWN_TYPES[4] == ".cxx" && KNOWN_TYPES[5] == ".cpp";
    r
  }

  /** Every known suffix ends in `h`, `p`, `c` or `x`; a name ending in anything else is never recorded. */
  lemma KnownTypeLastChar(name: string)
    requires IsKnownType(name)
    ensures |name| >= 2 && name[|name| - 1] in {'h', 'p', 'c', 'x'}
  {
    forall x | x in [".h", ".hpp", ".c", ".cc", ".cxx", ".cpp"] && HasSuffix(name, x)
      ensures name[|name| - 1] == x[|x| - 1]
    {
      assert name[|name| - |x|..][|x| - 1] == name[|name| - 1];
    }
  }

  /** Suffix matching is exact and case-sensitive: objects and `.C` files are not recorded. */
  lemma KnownTypeExamples()
    ensures IsKnownType("main.c") && IsKnownType("x.cpp") && IsKnownType("util.hpp")
    ensures !IsKnownType("a.o") && !IsKnownType("x.C") && !IsKnownType("c")
  {
    assert "main.c"[4..] == ".c";
    assert "x.cpp"[1..] == ".cpp";
    assert "util.hpp"[4..] == ".hpp";
    if IsKnownType("a.o") { KnownTypeLastChar("a.o"); }
    if IsKnownType("x.C") { KnownTypeLastChar("x.C"); }
    if IsKnownType("c") { KnownTypeLastChar("c"); }
  }

  predicate IsOption(arg: string) {
    HasPrefix(arg, "-")
  }

  /**
   * The files the scan collects once its iterator stands at index `i`: a
   * non-option with a known suffix is collected, `-o` makes the iterator skip
   * the next argument, any other option consumes only itself.
   */
  function ScanFrom(args: seq<string>, i: nat): seq<string>
    decreases |args| - i
  {
    if i >= |args| then []
    else if !IsOption(args[i]) then
      (if IsKnownType(args[i]) then [args[i]] else []) + ScanFrom(args, i + 1)
    else if args[i] == "-o" then ScanFrom(args, i + 2)
    else ScanFrom(args, i + 1)
  }

  /** The source files of an invocation: the scan starts after `argv[0]`. */
  function SourceFiles(argv: seq<string>): seq<string> {
    ScanFrom(argv, 1)
  }

  /** Everything the scan collects is an argument, not an option, with a known suffix. */
  lemma {:induction false} ScanMembers(args: seq<string>, i: nat)
    ensures forall x :: x in ScanFrom(args, i) ==> IsKnownType(x) && !IsOption(x) && x in args
    decreases |args| - i
  {
    if i < |args| {
      ScanMembers(args, i + 1);
      ScanMembers(args, i + 2);
    }
  }

  /**
   * The classification loop both proxies run over their arguments: it walks
   * the vector from index 1, appending known source operands to the list and
   * stepping over the operand of `-o`.
   */
  method CollectSources(argv: seq<string>) returns (files: seq<string>)
    ensures files == SourceFiles(argv)
  {
    files := [];
    var i := 1;
    while i < |argv|
      invariant 1 <= i <= |argv| + 1
      invariant files + ScanFrom(argv, i) == SourceFiles(argv)
      decreases |argv| + 1 - i
    {
      var arg := argv[i];
      if !IsOption(arg) {
        if IsKnownType(arg) {
          files := files + [arg];
        }
        i := i + 1;
        continue;
      }
      if arg == "-o" {
        i := i + 1;  // the output path is skipped, whatever it is
      }
      i := i + 1;
    }
  }

  // ---------------------------------------------------------------------
  // An independent description, position by position.
  // ---------------------------------------------------------------------

  /** The argument at index `i` is the operand of an output flag: it follows a `-o` that is not itself an operand. */
  predicate Consumed(args: seq<string>, i: nat)
    decreases i
  {
    2 <= i <= |args| && args[i - 1] == "-o" && !Consumed(args, i - 1)
  }

  /** The argument at index `i` is recorded as a source file. */
  predicate Selected(args: seq<string>, i: nat) {
    1 <= i < |args| && !Consumed(args, i) && !IsOption(args[i]) && IsKnownType(args[i])
  }

  /** The selected arguments at indices `i` and above, in order. */
  function SelectedFrom(args: seq<string>, i: nat): seq<string>
    decreases |args| - i
  {
    if i >= |args| then []
    else (if Selected(args, i) then [args[i]] else []) + SelectedFrom(args, i + 1)
  }

  lemma {:induction false} ScanIsSelection(args: seq<string>, i: nat)
    requires 1 <= i
    requires !Consumed(args, i)
    ensures ScanFrom(args, i) == SelectedFrom(args, i)
    decreases |args| - i
  {
    if i < |args| {
      if !IsOption(args[i]) {
        assert !Consumed(args, i + 1);
        ScanIsSelection(args, i + 1);
      } else if args[i] == "-o" {
        assert !Selected(args, i);
        if i + 1 < |args| {
          assert Consumed(args, i + 1);
          assert !Selected(args, i + 1);
          assert !Consumed(args, i + 2);
          ScanIsSelection(args, i + 2);
          assert SelectedFrom(args, i + 1) == SelectedFrom(args, i + 2);
        }
      } else {
        assert !Consumed(args, i + 1);
        ScanIsSelection(args, i + 1);
      }
    }
  }

  /** The scan collects exactly the selected arguments, in their original order. */
  lemma SourceFilesAreSelected(argv: seq<string>)
    ensures SourceFiles(argv) == SelectedFrom(argv, 1)
  {
    ScanIsSelection(argv, 1);
  }

  lemma {:induction false} SelectedFromMembers(args: seq<string>, i: nat, x: string)
    ensures x in SelectedFrom(args, i) <==> exists j :: i <= j < |args| && Selected(args, j) && args[j] == x
    decreases |args| - i
  {
    if i < |args| {
      SelectedFromMembers(args, i + 1, x);
      if x in SelectedFrom(args, i) && !(Selected(args, i) && args[i] == x) {
        var j :| i + 1 <= j < |args| && Selected(args, j) && args[j] == x;
      }
    }
  }

  /**
   * A string is recorded exactly when it stands at some index >= 1 that is not
   * the operand of `-o`, is not an option, and has a known suffix.
   */
  lemma SourceFileMembership(argv: seq<string>, x: string)
    ensures x in SourceFiles(argv) <==>
      exists j :: 1 <= j < |argv| && argv[j] == x && !Consumed(argv, j) && !IsOption(x) && IsKnownType(x)
  {
    SourceFilesAreSelected(argv);
    SelectedFromMembers(argv, 1, x);
  }

  lemma {:induction false} ScanIgnoresHead(a: seq<string>, b: seq<string>, i: nat)
    requires 1 <= i && 1 <= |a| == |b| && a[1..] == b[1..]
    ensures ScanFrom(a, i) == ScanFrom(b, i)
    decreases |a| - i
  {
    if i < |a| {
      assert a[i] == a[1..][i - 1] == b[i];
      ScanIgnoresHead(a, b, i + 1);
      ScanIgnoresHead(a, b, i + 2);
    }
  }

  /** `argv[0]` is never examined: replacing it (by a tool path, or by "gcc") changes nothing. */
  lemma SourceFilesIgnoreProgram(argv: seq<string>, program: string)
    requires |argv| >= 1
    ensures SourceFiles([program] + argv[1..]) == SourceFiles(argv)
  {
    var other := [program] + argv[1..];
    assert other[1..] == argv[1..];
    ScanIgnoresHead(other, argv, 1);
  }

  lemma {:induction false} ConsumedUnaffected(args: seq<string>, i: nat, x: string, j: nat)
    requires Consumed(args, i) && i < |args|
    ensures j != i ==> (Consumed(args[i := x], j) <==> Consumed(args, j))
    ensures j == i ==> Consumed(args[i := x], j)
    decreases j
  {
    var other := args[i := x];
    if 2 <= j <= |args| {
      ConsumedUnaffected(args, i, x, j - 1);
      if j - 1 == i {
        assert !Consumed(other, j);
        assert !Consumed(args, j);
      }
    }
  }

  lemma {:induction false} SelectedFromUnaffected(args: seq<string>, i: nat, x: string, k: nat)
    requires Consumed(args, i) && i < |args|
    ensures SelectedFrom(args[i := x], k) == SelectedFrom(args, k)
    decreases |args| - k
  {
    if k < |args| {
      ConsumedUnaffected(args, i, x, k);
      assert Selected(args[i := x], k) == Selected(args, k);
      SelectedFromUnaffected(args, i, x, k + 1);
    }
  }

  /**
   * The operand of `-o` has no influence on the result: whatever string stands
   * there (even a name with a known suffix, or another `-o`), the same files are
   * recorded.
   */
  lemma OutputOperandIgnored(argv: seq<string>, i: nat, x: string)
    requires 1 <= i < |argv| - 1 && argv[i] == "-o" && !Consumed(argv, i)
    ensures SourceFiles(argv[i + 1 := x]) == SourceFiles(argv)
    ensures argv[i + 1] !in SourceFiles(argv) || exists j :: 1 <= j < |argv| && j != i + 1 && Selected(argv, j) && argv[j] == argv[i + 1]
  {
    assert Consumed(argv, i + 1);
    SourceFilesAreSelected(argv);
    SourceFilesAreSelected(argv[i + 1 := x]);
    SelectedFromUnaffected(argv, i + 1, x, 1);
    SelectedFromMembers(argv, 1, argv[i + 1]);
  }

  /** A name made of a stem that does not start with `-` and a known suffix is a recorded operand. */
  lemma SourceOperand(stem: string, suffix: string)
    requires suffix in KNOWN_TYPES && stem != [] && stem[0] != '-'
    ensures IsKnownType(stem + suffix) && !IsOption(stem + suffix)
  {
    var name := stem + suffix;
    assert name[|name| - |suffix|..] == suffix;
    assert name[0] == stem[0];
  }

  /** An object file is an operand that is never recorded. */
  lemma ObjectOperand()
    ensures !IsKnownType("a.o") && !IsOption("a.o")
  {
    if IsKnownType("a.o") { KnownTypeLastChar("a.o"); }
    assert "a.o"[0] == 'a';
  }

  /** `cc -c a.c -o a.o`: only the source is recorded. */
  lemma CompileOneExample()
    ensures SourceFiles(["cc", "-c", "a.c", "-o", "a.o"]) == ["a.c"]
  {
    var a := ["cc", "-c", "a.c", "-o", "a.o"];
    assert IsOption("-c") && "-c" != "-o" by {
      assert "-c"[..1] == "-" && "-c"[1] != "-o"[1];
    }
    SourceOperand("a", ".c");
    assert a[1] == "-c" && a[2] == "a.c" && a[3] == "-o";
    assert ScanFrom(a, 3) == ScanFrom(a, 5) == [];
    assert ScanFrom(a, 2) == ["a.c"] + ScanFrom(a, 3);
    assert ScanFrom(a, 1) == ScanFrom(a, 2);
  }

  /** `cc -c a.c b.c`: both sources, in order. */
  lemma CompileTwoExample()
    ensures SourceFiles(["cc", "-c", "a.c", "b.c"]) == ["a.c", "b.c"]
  {
    var a := ["cc", "-c", "a.c", "b.c"];
    assert IsOption("-c") && "-c" != "-o" by {
      assert "-c"[..1] == "-" && "-c"[1] != "-o"[1];
    }
    SourceOperand("a", ".c");
    SourceOperand("b", ".c");
    assert a[1] == "-c" && a[2] == "a.c" && a[3] == "b.c";
    assert ScanFrom(a, 4) == [];
    assert ScanFrom(a, 3) == ["b.c"];
    assert ScanFrom(a, 2) == ["a.c", "b.c"];
    assert ScanFrom(a, 1) == ScanFrom(a, 2);
  }

  /** `cc -o foo.cc a.c`: the output path is skipped although it has a source suffix. */
  lemma OutputWithSourceSuffixExample()
    ensures SourceFiles(["cc", "-o", "foo.cc", "a.c"]) == ["a.c"]
  {
    var a := ["cc", "-o", "foo.cc", "a.c"];
    SourceOperand("a", ".c");
    assert a[1] == "-o" && a[3] == "a.c";
    assert ScanFrom(a, 3) == ["a.c"];
    assert ScanFrom(a, 1) == ScanFrom(a, 3);
  }

  /** `cc a.c -o`: a trailing `-o` ends the scan. */
  lemma TrailingOutputFlagExample()
    ensures SourceFiles(["cc", "a.c", "-o"]) == ["a.c"]
  {
    var a := ["cc", "a.c", "-o"];
    SourceOperand("a", ".c");
    assert a[1] == "a.c" && a[2] == "-o";
    assert ScanFrom(a, 2) == ScanFrom(a, 4) == [];
    assert ScanFrom(a, 1) == ["a.c"] + ScanFrom(a, 2);
  }
}
