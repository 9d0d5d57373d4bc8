// convertObjRefToFilename: the file that holds a schedule or controller.
module Filename {
  const SUFFIX: string := ".json"
  const NUL: char := '\0'

  function Escape(c: char): string {
    if c == '.' then "_" else if c == '/' then "__" else [c]
  }

  function Escaped(objRef: string): string {
    if objRef == "" then "" else Escaped(objRef[..|objRef| - 1]) + Escape(objRef[|objRef| - 1])
  }

  function FileName(objRef: string): string {
    Escaped(objRef) + SUFFIX
  }

  lemma {:induction false} EscapedPrefix(objRef: string, k: nat)
    requires k <= |objRef|
    ensures |Escaped(objRef[..k])| <= |Escaped(objRef)|
  {
    if k < |objRef| {
      EscapedPrefix(objRef[..|objRef| - 1], k);
      assert objRef[..|objRef| - 1][..k] == objRef[..k];
    } else {
      assert objRef[..k] == objRef;
    }
  }

  lemma EscapedStep(objRef: string, pos: nat)
    requires pos < |objRef|
    ensures Escaped(objRef[..pos + 1]) == Escaped(objRef[..pos]) + Escape(objRef[pos])
    ensures |Escaped(objRef[..pos + 1])| <= |Escaped(objRef)|
  {
    EscapedPrefix(objRef, pos + 1);
    assert objRef[..pos + 1][..pos] == objRef[..pos];
  }

  /** The loop fills the caller's buffer and ends with a terminator. */
  method ConvertObjRefToFilename(objRef: string, buffer: array<char>)
    requires |FileName(objRef)| + 1 <= buffer.Length
    modifies buffer
    ensures buffer[..|FileName(objRef)| + 1] == FileName(objRef) + [NUL]
    ensures forall k :: |FileName(objRef)| + 1 <= k < buffer.Length ==> buffer[k] == old(buffer[k])
  {
    hide Escaped;
    var pos := 0;
    var outPos := 0;
    assert objRef[..0] == "" && Escaped("") == "" by { NothingEscaped(); }
    while pos < |objRef|
      invariant 0 <= pos <= |objRef|
      invariant outPos == |Escaped(objRef[..pos])| <= |Escaped(objRef)|
      invariant buffer[..outPos] == Escaped(objRef[..pos])
      invariant forall k :: outPos <= k < buffer.Length ==> buffer[k] == old(buffer[k])
    {
      ghost var filled := buffer[..outPos];
      EscapedStep(objRef, pos);
      if objRef[pos] == '.' {
        buffer[outPos] := '_';
        outPos := outPos + 1;
      } else if objRef[pos] == '/' {
        buffer[outPos] := '_';
        buffer[outPos + 1] := '_';
        outPos := outPos + 2;
      } else {
        buffer[outPos] := objRef[pos];
        outPos := outPos + 1;
      }
      assert buffer[..outPos] == filled + Escape(objRef[pos]);
      pos := pos + 1;
    }
    assert objRef[..pos] == objRef;
    ghost var stem := buffer[..outPos];
    buffer[outPos], buffer[outPos + 1], buffer[outPos + 2] := '.', 'j', 's';
    buffer[outPos + 3], buffer[outPos + 4], buffer[outPos + 5] := 'o', 'n', NUL;
    assert buffer[..outPos] == stem;
    assert buffer[outPos..outPos + 6] == SUFFIX + [NUL];
  }

  lemma NothingEscaped()
    ensures Escaped("") == ""
  {
  }

  // ---- Different objects, different files ----

  /** A name part of an object reference. */
  predicate Plain(s: string) {
    forall i :: 0 <= i < |s| ==> s[i] != '.' && s[i] != '/'
  }

  predicate DoubleAt(s: string, k: int) {
    0 <= k && k + 1 < |s| && s[k] == '_' && s[k + 1] == '_'
  }

  /** A logical node name that can be told apart from its device name after escaping. */
  ghost predicate NodeName(ln: string) {
    && Plain(ln)
    && (ln != "" ==> ln[0] != '_')
    && (forall k :: !DoubleAt(ln, k))
  }

  lemma {:induction false} PlainEscape(s: string)
    requires Plain(s)
    ensures Escaped(s) == s
  {
    if s != "" {
      PlainEscape(s[..|s| - 1]);
    }
  }

  lemma Associative(a: string, b: string, c: string)
    ensures (a + b) + c == a + (b + c)
  {
  }

  lemma {:induction false} EscapedConcat(a: string, b: string)
    ensures Escaped(a + b) == Escaped(a) + Escaped(b)
  {
    if b == "" {
      assert a + b == a;
    } else {
      var c := b[..|b| - 1];
      EscapedConcat(a, c);
      assert (a + b)[..|a + b| - 1] == a + c && (a + b)[|a + b| - 1] == b[|b| - 1];
      Associative(Escaped(a), Escaped(c), Escape(b[|b| - 1]));
    }
  }

  /** The file name of LD/LN. */
  lemma FileNameOf(ld: string, ln: string)
    requires Plain(ld) && Plain(ln)
    ensures FileName(ld + "/" + ln) == ld + "__" + ln + SUFFIX
  {
    EscapedConcat(ld + "/", ln);
    EscapedConcat(ld, "/");
    assert Escaped("/") == "__" by { assert "/"[..0] == "" && "/"[0] == '/'; }
    PlainEscape(ld);
    PlainEscape(ln);
  }

  /** With its terminator a file name is seven characters longer than LD/LN. */
  lemma FileNameLength(ld: string, ln: string)
    requires Plain(ld) && Plain(ln)
    ensures |FileName(ld + "/" + ln) + [NUL]| == |ld + "/" + ln| + 7
    ensures |ld + "/" + ln| <= 129 ==> |FileName(ld + "/" + ln)| + 1 <= 200
  {
    FileNameOf(ld, ln);
  }

  lemma DoubleBehindSplit(ld: string, ln: string, k: int)
    requires DoubleAt(ld + "__" + ln, k)
    ensures k > |ld| + 1 ==> DoubleAt(ln, k - |ld| - 2)
    ensures k == |ld| + 1 ==> ln != "" && ln[0] == '_'
  {
  }

  /** The split is at the last double underscore. */
  lemma LastDouble(ld: string, ln: string, k: int)
    requires NodeName(ln) && DoubleAt(ld + "__" + ln, k)
    ensures k <= |ld|
  {
    DoubleBehindSplit(ld, ln, k);
  }

  /** Two schedules never share a file. */
  lemma FileNamesDiffer(ld1: string, ln1: string, ld2: string, ln2: string)
    requires Plain(ld1) && NodeName(ln1) && Plain(ld2) && NodeName(ln2)
    ensures FileName(ld1 + "/" + ln1) == FileName(ld2 + "/" + ln2) ==> ld1 == ld2 && ln1 == ln2
  {
    FileNameOf(ld1, ln1);
    FileNameOf(ld2, ln2);
    var s1, s2 := ld1 + "__" + ln1, ld2 + "__" + ln2;
    if s1 + SUFFIX == s2 + SUFFIX {
      assert s1 == (s1 + SUFFIX)[..|s1 + SUFFIX| - |SUFFIX|];
      assert s2 == (s2 + SUFFIX)[..|s2 + SUFFIX| - |SUFFIX|];
      assert DoubleAt(s1, |ld1|) && DoubleAt(s2, |ld2|);
      LastDouble(ld1, ln1, |ld2|);
      LastDouble(ld2, ln2, |ld1|);
      assert ld1 == s1[..|ld1|] && ld2 == s2[..|ld2|];
      assert ln1 == s1[|ld1| + 2..] && ln2 == s2[|ld2| + 2..];
    }
  }

  lemma LeadingUnderscoreCollides(ld: string, ln: string)
    requires Plain(ld) && Plain(ln) && ln != "" && ln[0] == '_'
    ensures Plain(ld + "_") && Plain(ln[1..])
    ensures FileName(ld + "_" + "/" + ln[1..]) == FileName(ld + "/" + ln)
  {
    FileNameOf(ld, ln);
    FileNameOf(ld + "_", ln[1..]);
    assert ln == "_" + ln[1..];
    assert ld + "_" + "__" + ln[1..] + SUFFIX == ld + "__" + ("_" + ln[1..]) + SUFFIX;
  }

  lemma DoubleUnderscoreCollides(ld: string, ln: string, k: int)
    requires Plain(ld) && Plain(ln) && DoubleAt(ln, k)
    ensures Plain(ld + "__" + ln[..k]) && Plain(ln[k + 2..])
    ensures FileName(ld + "__" + ln[..k] + "/" + ln[k + 2..]) == FileName(ld + "/" + ln)
  {
    FileNameOf(ld, ln);
    FileNameOf(ld + "__" + ln[..k], ln[k + 2..]);
    assert ln == ln[..k] + "__" + ln[k + 2..];
    assert ld + "__" + ln[..k] + "__" + ln[k + 2..] + SUFFIX == ld + "__" + (ln[..k] + "__" + ln[k + 2..]) + SUFFIX;
  }

  /**
    * Both restrictions are needed: whatever the device, a plain node name without
    * one of them shares its file with a node of another device.
    */
  lemma FileNamesCanCollide(ld: string, ln: string)
    requires Plain(ld) && Plain(ln) && !NodeName(ln)
    ensures exists ld2: string, ln2: string ::
      Plain(ld2) && Plain(ln2) && ld2 != ld && FileName(ld2 + "/" + ln2) == FileName(ld + "/" + ln)
  {
    if ln != "" && ln[0] == '_' {
      LeadingUnderscoreCollides(ld, ln);
      assert |ld + "_"| != |ld|;
    } else {
      var k :| DoubleAt(ln, k);
      DoubleUnderscoreCollides(ld, ln, k);
      assert |ld + "__" + ln[..k]| != |ld|;
    }
  }
}
