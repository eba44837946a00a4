/**
  The check bpflet makes at start-up for its own bpf filesystem mount
  (`is_bpffs_mounted`, bpflet/src/cli/system.rs). The contents of /proc/mounts
  are given as the sequence of its lines; opening and reading the file is not
  modelled.
*/
module CliSystem {
  import opened Wrappers

  /** The number of times `c` occurs in `s`. */
  function Occurrences(s: string, c: char): nat
  {
    if s == [] then 0 else (if s[0] == c then 1 else 0) + Occurrences(s[1..], c)
  }

  /**
    Rust's `s.split(sep)` on a single character: the pieces between separators,
    so that consecutive separators give empty pieces and "" gives [""].
  */
  function Split(s: string, sep: char): (parts: seq<string>)
    ensures |parts| == Occurrences(s, sep) + 1
    ensures forall i :: 0 <= i < |parts| ==> sep !in parts[i]
    decreases |s|
  {
    if s == [] then [""]
    else
      var rest := Split(s[1..], sep);
      if s[0] == sep then [""] + rest
      else [[s[0]] + rest[0]] + rest[1..]
  }

  /** The pieces glued back together with `sep` between them. */
  function Join(parts: seq<string>, sep: char): string
  {
    if parts == [] then ""
    else if |parts| == 1 then parts[0]
    else parts[0] + [sep] + Join(parts[1..], sep)
  }

  /** Splitting loses nothing: the pieces join back to the line. */
  lemma {:induction false} JoinSplit(s: string, sep: char)
    ensures Join(Split(s, sep), sep) == s
    decreases |s|
  {
    if s != [] {
      var rest := Split(s[1..], sep);
      JoinSplit(s[1..], sep);
      if s[0] == sep {
        assert Split(s, sep) == [""] + rest;
        assert ([""] + rest)[1..] == rest;
        assert s == [sep] + s[1..];
      } else {
        var parts := Split(s, sep);
        assert parts == [[s[0]] + rest[0]] + rest[1..];
        if |rest| == 1 {
          assert parts == [[s[0]] + rest[0]];
          assert Join(rest, sep) == rest[0];
        } else {
          assert parts[1..] == rest[1..];
          assert Join(rest, sep) == rest[0] + [sep] + Join(rest[1..], sep);
        }
        assert s == [s[0]] + s[1..];
      }
    }
  }

  /** Pieces that contain no separator are recovered by splitting their join. */
  lemma {:induction false} SplitJoin(parts: seq<string>, sep: char)
    requires |parts| >= 1
    requires forall i :: 0 <= i < |parts| ==> sep !in parts[i]
    ensures Split(Join(parts, sep), sep) == parts
    decreases |parts|, |parts[0]|
  {
    if |parts| == 1 {
      SplitNoSeparator(parts[0], sep);
    } else if parts[0] == [] {
      var tail := Join(parts[1..], sep);
      SplitJoin(parts[1..], sep);
      assert Join(parts, sep) == [sep] + tail;
      assert ([sep] + tail)[1..] == tail;
      assert [""] + parts[1..] == parts;
    } else {
      var p0 := parts[0];
      var shorter := [p0[1..]] + parts[1..];
      assert shorter[1..] == parts[1..];
      assert forall i :: 0 <= i < |shorter| ==> sep !in shorter[i] by {
        forall i | 0 <= i < |shorter| ensures sep !in shorter[i] {
          if i == 0 {
            assert forall x :: x in p0[1..] ==> x in p0;
          } else {
            assert shorter[i] == parts[i];
          }
        }
      }
      SplitJoin(shorter, sep);
      var j := Join(parts, sep);
      assert j == p0 + [sep] + Join(parts[1..], sep);
      assert j[0] == p0[0] && j[0] != sep;
      assert j[1..] == Join(shorter, sep);
      var rest := Split(j[1..], sep);
      assert Split(j, sep) == [[p0[0]] + rest[0]] + rest[1..];
      assert [p0[0]] + p0[1..] == p0;
      assert [p0] + parts[1..] == parts;
    }
  }

  /** A line without separators is a single piece. */
  lemma {:induction false} SplitNoSeparator(s: string, sep: char)
    requires sep !in s
    ensures Split(s, sep) == [s]
    decreases |s|
  {
    if s != [] {
      assert sep !in s[1..] by {
        assert forall x :: x in s[1..] ==> x in s;
      }
      SplitNoSeparator(s[1..], sep);
      assert [s[0]] + s[1..] == s;
    }
  }

  /** Rust's `haystack.contains(needle)` for a string needle. */
  predicate Contains(haystack: string, needle: string)
  {
    exists i :: 0 <= i <= |haystack| && needle <= haystack[i..]
  }

  /** A /proc/mounts line with exactly six space-separated fields. */
  predicate WellFormedMount(line: string)
  {
    |Split(line, ' ')| == 6
  }

  /**
    A six-field line whose device is "none", whose mount point mentions
    "bpflet" and whose file system type is "bpf"; the last three fields are
    not looked at.
  */
  predicate IsBpffletMount(line: string)
  {
    var parts := Split(line, ' ');
    |parts| == 6 && parts[0] == "none" && Contains(parts[1], "bpflet") && parts[2] == "bpf"
  }

  /** Some line is a bpflet bpf mount and every line before it has six fields. */
  ghost predicate MountFound(lines: seq<string>)
  {
    exists i :: 0 <= i < |lines| && IsBpffletMount(lines[i]) &&
                forall j :: 0 <= j < i ==> WellFormedMount(lines[j])
  }

  /** Every line has six fields and none is a bpflet bpf mount. */
  ghost predicate NoMount(lines: seq<string>)
  {
    forall j :: 0 <= j < |lines| ==> WellFormedMount(lines[j]) && !IsBpffletMount(lines[j])
  }

  /** Some line lacks six fields and no line before it is a bpflet bpf mount. */
  ghost predicate MalformedFirst(lines: seq<string>)
  {
    exists i :: 0 <= i < |lines| && !WellFormedMount(lines[i]) &&
                forall j :: 0 <= j < i ==> !IsBpffletMount(lines[j])
  }

  datatype MountsError = ExpectedSixParts

  /**
    Scan the lines in order: fail at a line that is not six fields, succeed at
    the first bpflet bpf mount, and report false when the lines run out.
  */
  method IsBpffsMounted(lines: seq<string>) returns (r: Result<bool, MountsError>)
    ensures r == Ok(true) <==> MountFound(lines)
    ensures r == Ok(false) <==> NoMount(lines)
    ensures r == Err(ExpectedSixParts) <==> MalformedFirst(lines)
  {
    for i := 0 to |lines|
      invariant forall j :: 0 <= j < i ==> WellFormedMount(lines[j]) && !IsBpffletMount(lines[j])
    {
      var parts := Split(lines[i], ' ');
      if |parts| != 6 {
        assert !WellFormedMount(lines[i]);
        assert !NoMount(lines);
        assert !MountFound(lines);
        assert MalformedFirst(lines);
        return Err(ExpectedSixParts);
      }
      if parts[0] == "none" && Contains(parts[1], "bpflet") && parts[2] == "bpf" {
        assert IsBpffletMount(lines[i]);
        assert MountFound(lines);
        assert !NoMount(lines);
        assert !MalformedFirst(lines);
        return Ok(true);
      }
    }
    return Ok(false);
  }
}
