/** Attachment names over their bytes and scalars: which characters and which
    parts between slashes a name may have. */
module AttachmentLaws {
  import opened Outcomes
  import opened Utf8
  import opened Attachments

  // ----- control characters -----

  /** A C0 or C1 control character, or DEL: category Cc. */
  predicate IsControl(c: char) {
    c < ' ' || '\U{007F}' <= c <= '\U{009F}'
  }

  predicate ControlAt(name: Name, i: int)
    requires 0 <= i < |name|
  {
    name[i] < 0x20 || name[i] == 0x7F || (name[i] == 0xC2 && i + 1 < |name| && 0x80 <= name[i + 1] < 0xA0)
  }

  lemma CharControl(c: char, rest: Name)
    ensures IsControl(c) <==> exists i | 0 <= i < |EncodeChar(c)| :: ControlAt(EncodeChar(c) + rest, i)
  {
    var a, n := EncodeChar(c), c as int;
    var s := a + rest;
    assert forall i | 0 <= i < |a| :: s[i] == a[i];
    if n >= 0x80 {
      assert forall i | 1 <= i < |a| :: 0x80 <= a[i] < 0xC0;
      if n < 0x800 {
        assert s[0] == (0xC0 + n / 0x40) as Byte && s[1] == (0x80 + n % 0x40) as Byte;
        assert ControlAt(s, 0) <==> n / 0x40 == 2 && n % 0x40 < 0x20;
      }
    } else {
      assert ControlAt(s, 0) <==> IsControl(c);
    }
  }

  /** The byte scan finds a control character exactly when the text has one. */
  lemma {:induction false} ControlIff(s: string)
    ensures HasControl(Encode(s)) <==> exists c | c in s :: IsControl(c)
  {
    if s != [] {
      var a, b := EncodeChar(s[0]), Encode(s[1..]);
      ControlIff(s[1..]);
      CharControl(s[0], b);
      ControlShift(a, b);
      assert s == [s[0]] + s[1..];
    }
  }

  lemma ControlPlace(name: Name)
    ensures HasControl(name) <==> exists i | 0 <= i < |name| :: ControlAt(name, i)
  {
    if HasControl(name) {
      var i :| 0 <= i < |name| && (name[i] < 0x20 || name[i] == 0x7F ||
                                   (name[i] == 0xC2 && i + 1 < |name| && 0x80 <= name[i + 1] < 0xA0));
      assert ControlAt(name, i);
    }
    if i :| 0 <= i < |name| && ControlAt(name, i) {
      assert name[i] < 0x20 || name[i] == 0x7F || (name[i] == 0xC2 && i + 1 < |name| && 0x80 <= name[i + 1] < 0xA0);
    }
  }

  lemma ControlShift(a: Name, b: Name)
    ensures HasControl(a + b) <==> (exists i | 0 <= i < |a| :: ControlAt(a + b, i)) || HasControl(b)
  {
    var s := a + b;
    ControlPlace(s);
    ControlPlace(b);
    forall i | 0 <= i < |b| ensures ControlAt(s, |a| + i) <==> ControlAt(b, i) {
      assert s[|a| + i] == b[i];
    }
    if i :| 0 <= i < |s| && ControlAt(s, i) && i >= |a| { assert ControlAt(b, i - |a|); }
    if i :| 0 <= i < |b| && ControlAt(b, i) { assert ControlAt(s, |a| + i); }
  }

  // ----- segments -----

  /** The bytes from i to j stand between slashes or ends, with no slash among them. */
  predicate IsSegment(name: Name, i: int, j: int) {
    && 0 <= i <= j <= |name|
    && (i == 0 || name[i - 1] == 0x2F) && (j == |name| || name[j] == 0x2F)
    && forall k | i <= k < j :: name[k] != 0x2F
  }

  predicate NoSlash(name: Name) {
    forall k | 0 <= k < |name| :: name[k] != 0x2F
  }

  lemma {:induction false} SplitOne(name: Name)
    requires NoSlash(name)
    ensures Split(name) == [name]
  {
    if name != [] {
      SplitOne(name[1..]);
      assert name == [name[0]] + name[1..];
    }
  }

  lemma LastPart(name: Name, i: int, j: int)
    requires IsSegment(name, i, j) && Split(name[i..j]) == [name[i..j]]
    ensures name[i..j] in Split(name[..j])
  {
    var part, front := name[i..j], name[..j];
    if i == 0 {
      assert front == part;
    } else {
      assert front == name[..i - 1] + [SLASH] + part;
      SplitAppend(name[..i - 1], part);
    }
  }

  /** What stands between slashes is a part. */
  lemma SegmentIsPart(name: Name, i: int, j: int)
    requires IsSegment(name, i, j)
    ensures name[i..j] in Split(name)
  {
    var part := name[i..j];
    SplitOne(part);
    var front := name[..j];
    LastPart(name, i, j);
    if j == |name| {
      assert name == front;
    } else {
      assert name == front + [SLASH] + name[j + 1..];
      SplitAppend(front, name[j + 1..]);
    }
  }

  lemma {:induction false} PartsNoSlash(name: Name)
    ensures forall part | part in Split(name) :: NoSlash(part)
  {
    if name != [] {
      PartsNoSlash(name[1..]);
      var rest := Split(name[1..]);
      assert rest[0] in rest;
    }
  }

  lemma JoinFront(parts: seq<Name>, k: nat)
    requires k < |parts|
    ensures Join(parts[..k + 1]) == (if k == 0 then [] else Join(parts[..k]) + [SLASH]) + parts[k]
  {
    assert parts[..k + 1] == parts[..k] + [parts[k]];
    if k > 0 { JoinAppend(parts[..k], [parts[k]]); }
  }

  /** And every part stands between slashes. */
  lemma PartIsSegment(name: Name, k: nat) returns (i: int, j: int)
    requires k < |Split(name)|
    ensures IsSegment(name, i, j) && name[i..j] == Split(name)[k]
  {
    var parts := Split(name);
    JoinSplit(name);
    PartsNoSlash(name);
    assert parts[k] in parts;
    var front := if k == 0 then [] else Join(parts[..k]) + [SLASH];
    i, j := |front|, |front| + |parts[k]|;
    JoinFront(parts, k);
    JoinBack(parts, k);
    StandsBetween(name, front, parts[k], if k + 1 == |parts| then [] else [SLASH] + Join(parts[k + 1..]));
  }

  lemma JoinBack(parts: seq<Name>, k: nat)
    requires k < |parts|
    ensures Join(parts) == Join(parts[..k + 1]) + if k + 1 == |parts| then [] else [SLASH] + Join(parts[k + 1..])
  {
    if k + 1 == |parts| {
      assert parts[..k + 1] == parts;
    } else {
      var a, b := parts[..k + 1], parts[k + 1..];
      assert parts == a + b;
      JoinAppend(a, b);
      Associate(Join(a), Join(b));
    }
  }

  lemma Associate(a: Name, b: Name)
    ensures a + [SLASH] + b == a + ([SLASH] + b)
  {
  }

  lemma StandsBetween(name: Name, front: Name, part: Name, back: Name)
    requires name == front + part + back && NoSlash(part)
    requires (front == [] || front[|front| - 1] == 0x2F) && (back == [] || back[0] == 0x2F)
    ensures IsSegment(name, |front|, |front| + |part|) && name[|front|..|front| + |part|] == part
  {
    var i, j := |front|, |front| + |part|;
    assert i > 0 ==> name[i - 1] == front[i - 1];
    assert j < |name| ==> name[j] == back[0];
    assert forall k | i <= k < j :: name[k] == part[k - i];
  }

  /** A valid name has at most 1,024 bytes and no control character, and between
      its slashes stand 1 to 255 bytes that are neither "." nor "..". */
  lemma ValidNameIff(name: Name)
    ensures ValidName(name) <==>
            && 0 < |name| <= 1024 && !HasControl(name)
            && forall i, j | IsSegment(name, i, j) ::
                 1 <= j - i <= 255 && name[i..j] != [0x2E] && name[i..j] != [0x2E, 0x2E]
  {
    forall i, j | IsSegment(name, i, j) ensures name[i..j] in Split(name) { SegmentIsPart(name, i, j); }
    if ValidName(name) {
      forall i, j | IsSegment(name, i, j)
        ensures 1 <= j - i <= 255 && name[i..j] != [0x2E] && name[i..j] != [0x2E, 0x2E]
      {
        var k :| 0 <= k < |Split(name)| && Split(name)[k] == name[i..j];
        assert ValidSegment(Split(name)[k]);
      }
    } else if 0 < |name| <= 1024 && !HasControl(name) {
      if name[0] == SLASH {
        assert IsSegment(name, 0, 0);
      } else {
        var k :| 0 <= k < |Split(name)| && !ValidSegment(Split(name)[k]);
        var i, j := PartIsSegment(name, k);
        assert |name[i..j]| == j - i;
      }
    }
  }
}
