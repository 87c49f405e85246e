/** The entry loop of e2fsck pass 2, with every repair accepted: it ends, and the entries then tile the block. */
module DirCheck {
  import opened Bytes
  import opened DirBlock

  const DOT: byte := 0x2E
  const SLASH: byte := 0x2F
  const ROOT_INO: u32 := 2

  /** What the rest of the checks decide about an entry in use: clear it, or keep it with this file type. */
  datatype Verdict = Clear | Keep(fileType: byte)

  method WriteRecLen(buf: array<byte>, o: nat, len: nat)
    requires o + HEADER_LEN <= buf.Length
    modifies buf
    ensures buf[..] == SetRecLen(old(buf[..]), o, len)
  {
    if len > buf.Length || len % 4 != 0 || len >= 0x1_0000 {
      return;
    }
    buf[o + 4], buf[o + 5] := len % 256, len / 256;
  }

  method WriteInode(buf: array<byte>, o: nat, ino: u32)
    requires o + HEADER_LEN <= buf.Length
    modifies buf
    ensures Inode(buf[..], o) == ino
    ensures forall i :: 0 <= i < buf.Length && !(o <= i < o + 4) ==> buf[i] == old(buf[i])
  {
    FourBytes(ino);
    buf[o], buf[o + 1], buf[o + 2], buf[o + 3] :=
      ino % 256, ino / 256 % 256, ino / 0x1_0000 % 256, ino / 0x100_0000;
  }

  method MoveUp(buf: array<byte>, o: nat)
    requires o + HEADER_LEN <= buf.Length
    modifies buf
    ensures buf[..] == CloseHole(old(buf[..]), o)
  {
    var left := buf.Length - o - HEADER_LEN;
    forall i | o <= i < o + left {
      buf[i] := buf[i + HEADER_LEN];
    }
    forall i | o + left <= i < buf.Length {
      buf[i] := 0;
    }
  }

  method Blank(buf: array<byte>, o: nat)
    requires o + HEADER_LEN <= buf.Length
    modifies buf
    ensures buf[..] == BlankEntry(old(buf[..]), o)
  {
    WriteRecLen(buf, o, buf.Length - o);
    buf[o + 6], buf[o + 7] := 0, 0;
    buf[o], buf[o + 1], buf[o + 2], buf[o + 3] := 0, 0, 0, 0;
  }

  /** `salvage_directory`. */
  method SalvageDirectory(buf: array<byte>, o: nat, prev: int, inodes: nat) returns (offset: nat)
    requires BlockSize(buf.Length) && At(buf[..], o, prev) && o < buf.Length
    modifies buf
    ensures Salvaged(buf[..], offset) == Salvage(old(buf[..]), o, prev, inodes)
  {
    hide CloseHole, BlankEntry, Tiled, SetRecLen;
    var room := buf.Length - o;
    var nameLen := if room < HEADER_LEN then 0 else NameLen(buf[..], o);
    var recLen := if room < HEADER_LEN then room else RecLen(buf[..], o);
    var left := room - recLen;
    offset := o;
    if left >= MIN_ENTRY && recLen == HEADER_LEN {
      MoveUp(buf, o);
    } else if left < 0 && room > HEADER_LEN && nameLen + HEADER_LEN <= room && Inode(buf[..], o) <= inodes &&
              NameIsWhole(buf[..], o, nameLen) {
      WriteRecLen(buf, o, room);
    } else if prev >= 0 && recLen > 0 && recLen % 4 == 0 && recLen <= room {
      WriteRecLen(buf, prev, RecLen(buf[..], prev) + recLen);
      offset := o + recLen;
    } else if prev >= 0 {
      WriteRecLen(buf, prev, RecLen(buf[..], prev) + room);
      offset := buf.Length;
    } else {
      Blank(buf, o);
    }
  }

  /** Entry `o` is a sound "." for directory `ino`. */
  predicate IsDot(s: seq<byte>, o: nat, ino: u32) {
    Sound(s, o) && Inode(s, o) == ino && NameLen(s, o) == 1 && s[o + 8] == DOT && s[o + 9] == 0
  }

  predicate NamedDot(s: seq<byte>, o: nat) {
    Sound(s, o) && Inode(s, o) != 0 && NameLen(s, o) == 1 && s[o + 8] == DOT && s[o + 9] == 0
  }

  predicate IsDotDot(s: seq<byte>, o: nat) {
    Sound(s, o) && Inode(s, o) != 0 && NameLen(s, o) == 2 && s[o + 8] == DOT && s[o + 9] == DOT && s[o + 10] == 0
  }

  /**
   `check_dot`: whatever the sound entry at `o` was, it becomes ".", and space for another entry behind it is
   split off as an empty entry.
   */
  method CheckDot(buf: array<byte>, o: nat, ino: u32)
    requires BlockSize(buf.Length) && Sound(buf[..], o) && ino != 0
    modifies buf
    ensures IsDot(buf[..], o, ino)
    ensures forall i :: 0 <= i < buf.Length && !(o <= i < o + 20) ==> buf[i] == old(buf[i])
    ensures old(NamedDot(buf[..], o)) ==> forall i :: o + 6 <= i < o + 10 ==> buf[i] == old(buf[i])
    ensures old(IsDot(buf[..], o, ino)) && old(RecLen(buf[..], o)) <= 2 * MIN_ENTRY ==> buf[..] == old(buf[..])
    ensures var r := old(RecLen(buf[..], o));
      if r > 2 * MIN_ENTRY
      then && RecLen(buf[..], o) == MIN_ENTRY
           && Sound(buf[..], o + MIN_ENTRY) && RecLen(buf[..], o + MIN_ENTRY) == r - MIN_ENTRY
           && Inode(buf[..], o + MIN_ENTRY) == 0 && NameLen(buf[..], o + MIN_ENTRY) == 0
      else RecLen(buf[..], o) == r && forall i :: o + 10 <= i < buf.Length ==> buf[i] == old(buf[i])
  {
    var recLen := RecLen(buf[..], o);
    NameDot(buf, o, ino);
    if recLen > MIN_ENTRY {
      var newLen := recLen - MIN_ENTRY;
      if newLen > MIN_ENTRY {
        SplitDot(buf, o, newLen);
      }
    }
  }

  method NameDot(buf: array<byte>, o: nat, ino: u32)
    requires Sound(buf[..], o) && ino != 0
    modifies buf
    ensures IsDot(buf[..], o, ino) && RecLen(buf[..], o) == old(RecLen(buf[..], o))
    ensures forall i :: 0 <= i < buf.Length && !(o <= i < o + 4) && !(o + 6 <= i < o + 10) ==> buf[i] == old(buf[i])
    ensures old(NamedDot(buf[..], o)) ==> forall i :: o + 6 <= i < o + 10 ==> buf[i] == old(buf[i])
    ensures old(IsDot(buf[..], o, ino)) ==> buf[..] == old(buf[..])
  {
    if Inode(buf[..], o) == 0 || NameLen(buf[..], o) != 1 || buf[o + 8] != DOT || buf[o + 9] != 0 {
      WriteInode(buf, o, ino);
      buf[o + 6], buf[o + 7], buf[o + 8], buf[o + 9] := 1, 0, DOT, 0;
    }
    if Inode(buf[..], o) != ino {
      WriteInode(buf, o, ino);
    }
  }

  method SplitDot(buf: array<byte>, o: nat, newLen: nat)
    requires BlockSize(buf.Length) && Sound(buf[..], o) && NameLen(buf[..], o) == 1
    requires RecLen(buf[..], o) == MIN_ENTRY + newLen && newLen > MIN_ENTRY
    modifies buf
    ensures Sound(buf[..], o) && RecLen(buf[..], o) == MIN_ENTRY
    ensures Sound(buf[..], o + MIN_ENTRY) && RecLen(buf[..], o + MIN_ENTRY) == newLen
    ensures Inode(buf[..], o + MIN_ENTRY) == 0 && NameLen(buf[..], o + MIN_ENTRY) == 0
    ensures forall i :: 0 <= i < buf.Length && !(o + 4 <= i < o + 6) && !(o + 12 <= i < o + 20) ==>
              buf[i] == old(buf[i])
  {
    var next := o + MIN_ENTRY;
    buf[o + 4], buf[o + 5] := MIN_ENTRY, 0;
    WriteRecLen(buf, next, newLen);
    WriteInode(buf, next, 0);
    buf[next + 6], buf[next + 7] := 0, 0;
  }

  /**
   `check_dotdot`: the sound entry at `o` becomes ".."; a repaired one points at the root until pass 3. The inode of
   one that needs no repair is the `dotdot` recorded in the directory table; 0 stands for none.
   */
  method CheckDotDot(buf: array<byte>, o: nat) returns (dotdot: nat)
    requires BlockSize(buf.Length) && Sound(buf[..], o)
    modifies buf
    ensures IsDotDot(buf[..], o) && RecLen(buf[..], o) == old(RecLen(buf[..], o))
    ensures forall i :: 0 <= i < buf.Length && !(o <= i < o + 4) && !(o + 6 <= i < o + 11) ==> buf[i] == old(buf[i])
    ensures if old(IsDotDot(buf[..], o)) then buf[..] == old(buf[..]) && dotdot == Inode(buf[..], o)
            else Inode(buf[..], o) == ROOT_INO && dotdot == 0
  {
    dotdot := Inode(buf[..], o);
    if Inode(buf[..], o) == 0 || NameLen(buf[..], o) != 2 ||
       buf[o + 8] != DOT || buf[o + 9] != DOT || buf[o + 10] != 0 {
      dotdot := 0;
      WriteInode(buf, o, ROOT_INO);
      buf[o + 6], buf[o + 7], buf[o + 8], buf[o + 9], buf[o + 10] := 2, 0, DOT, DOT, 0;
    }
  }

  /** `check_name`: slashes and NULs in the name become dots. */
  method CheckName(buf: array<byte>, o: nat)
    requires Sound(buf[..], o)
    modifies buf
    ensures forall i :: 0 <= i < buf.Length ==>
              buf[i] == if o + HEADER_LEN <= i < o + HEADER_LEN + old(NameLen(buf[..], o)) &&
                           (old(buf[i]) == SLASH || old(buf[i]) == 0) then DOT else old(buf[i])
  {
    var len, start := NameLen(buf[..], o), o + HEADER_LEN;
    var k := 0;
    while k < len
      invariant 0 <= k <= len && start + len <= buf.Length
      invariant forall i :: 0 <= i < buf.Length ==>
                  buf[i] == if start <= i < start + k && (old(buf[i]) == SLASH || old(buf[i]) == 0)
                            then DOT else old(buf[i])
    {
      if buf[start + k] == SLASH || buf[start + k] == 0 {
        buf[start + k] := DOT;
      }
      k := k + 1;
    }
  }

  /** The decisions of the remaining checks, by offset and block contents. */
  type Judge = (nat, seq<byte>) -> Verdict

  /** What the checks of one block go by: the directory, the inodes there are, and the decisions. */
  datatype Rules = Rules(ino: u32, firstIno: nat, inodes: nat, encrypted: bool, judge: Judge)

  function Name(s: seq<byte>, o: nat): seq<byte>
    requires o + HEADER_LEN <= |s| && o + HEADER_LEN + NameLen(s, o) <= |s|
  {
    s[o + HEADER_LEN..o + HEADER_LEN + NameLen(s, o)]
  }

  /** The tests that an entry in use must pass by itself; the last four are made from the third entry on. */
  predicate Illegal(s: seq<byte>, o: nat, dotState: nat, c: Rules)
    requires Sound(s, o)
  {
    || (Inode(s, o) != ROOT_INO && Inode(s, o) < c.firstIno) || Inode(s, o) > c.inodes
    || (dotState > 1 &&
          (Name(s, o) == [DOT] || Name(s, o) == [DOT, DOT] || Inode(s, o) == ROOT_INO || NameLen(s, o) == 0))
  }

  /** The entry passes every test, has its type and needs no cleaning. */
  predicate Passes(s: seq<byte>, o: nat, dotState: nat, c: Rules)
    requires Sound(s, o)
  {
    && !Illegal(s, o, dotState, c) && c.judge(o, s) == Keep(s[o + 7])
    && (!c.encrypted ==> SLASH !in Name(s, o) && 0 !in Name(s, o))
  }

  /** The entry at `o`, not one of the first two, needs nothing done to it. */
  predicate Settled(s: seq<byte>, o: nat, c: Rules) {
    Sound(s, o) && (Inode(s, o) != 0 ==> Inode(s, o) != c.ino && Passes(s, o, 2, c))
  }

  /** The same for any entry. */
  predicate InPlace(s: seq<byte>, o: nat, k: nat, c: Rules) {
    if k == 0 then IsDot(s, o, c.ino) && RecLen(s, o) <= 2 * MIN_ENTRY && Passes(s, o, 0, c)
    else if k == 1 then IsDotDot(s, o) && Passes(s, o, 1, c)
    else Settled(s, o, c)
  }

  /** Byte `i` of an entry's name, which `check_name` may replace. */
  function Cleaned(s: seq<byte>, o: nat, i: nat, c: Rules): byte
    requires o + HEADER_LEN <= |s| && i < |s|
  {
    if !c.encrypted && o + HEADER_LEN <= i < o + HEADER_LEN + NameLen(s, o) && (s[i] == SLASH || s[i] == 0) then DOT
    else s[i]
  }

  /** What the checks of an entry in use make of it: cleared, or its name cleaned and its type set. */
  ghost predicate Finished(s: seq<byte>, t: seq<byte>, o: nat, dotState: nat, c: Rules)
    requires Sound(s, o)
  {
    && |t| == |s|
    && if Illegal(s, o, dotState, c) || c.judge(o, s).Clear? then
         Inode(t, o) == 0 && forall i :: 0 <= i < |s| && !(o <= i < o + 4) ==> t[i] == s[i]
       else
         && t[o + 7] == c.judge(o, s).fileType
         && forall i :: 0 <= i < |s| && i != o + 7 ==> t[i] == Cleaned(s, o, i, c)
  }

  /** The checks of an entry from the third on: one that names the directory itself is cleared as well. */
  ghost predicate Repaired(s: seq<byte>, t: seq<byte>, o: nat, c: Rules)
    requires Sound(s, o)
  {
    if Inode(s, o) == 0 then t == s
    else if Inode(s, o) == c.ino then
      |t| == |s| && Inode(t, o) == 0 && forall i :: 0 <= i < |s| && !(o <= i < o + 4) ==> t[i] == s[i]
    else Finished(s, t, o, 2, c)
  }

  lemma PassesStays(s: seq<byte>, t: seq<byte>, o: nat, k: nat, c: Rules)
    requires Sound(s, o) && Passes(s, o, k, c) && Finished(s, t, o, k, c)
    ensures t == s
  {
    hide Illegal;
    forall i | 0 <= i < |s|
      ensures t[i] == s[i]
    {
      if i != o + 7 && o + HEADER_LEN <= i < o + HEADER_LEN + NameLen(s, o) {
        assert Name(s, o)[i - o - HEADER_LEN] == s[i];
      }
    }
  }

  lemma SettledStays(s: seq<byte>, t: seq<byte>, o: nat, c: Rules)
    requires Settled(s, o, c) && Repaired(s, t, o, c)
    ensures t == s
  {
    hide Illegal, Passes, Finished;
    if Inode(s, o) != 0 {
      PassesStays(s, t, o, 2, c);
    }
  }

  /** What is true of every entry in use of a checked block; `k` counts the entries of the directory. */
  predicate Tidy(s: seq<byte>, o: nat, k: nat, c: Rules) {
    && Sound(s, o)
    && (Inode(s, o) != 0 ==>
          && (Inode(s, o) == ROOT_INO || c.firstIno <= Inode(s, o)) && Inode(s, o) <= c.inodes
          && (!c.encrypted ==> SLASH !in Name(s, o) && 0 !in Name(s, o))
          && (k >= 2 ==> Inode(s, o) != c.ino && Inode(s, o) != ROOT_INO && NameLen(s, o) > 0))
  }

  /** What is left alone is exactly what is tidy already, has its type, and is no further "." or "..". */
  lemma PassesExactly(s: seq<byte>, o: nat, k: nat, c: Rules)
    requires Sound(s, o) && Inode(s, o) != 0
    ensures Passes(s, o, k, c) && (k >= 2 ==> Inode(s, o) != c.ino) <==>
            Tidy(s, o, k, c) && c.judge(o, s) == Keep(s[o + 7]) &&
            (k >= 2 ==> Name(s, o) != [DOT] && Name(s, o) != [DOT, DOT])
  {
    assert |Name(s, o)| == NameLen(s, o);
  }

  /** A finished entry is tidy. */
  lemma FinishedTidy(s: seq<byte>, t: seq<byte>, o: nat, k: nat, c: Rules)
    requires Sound(s, o) && Finished(s, t, o, k, c) && (k >= 2 ==> Inode(s, o) != c.ino)
    ensures Tidy(t, o, k, c) && RecLen(t, o) == RecLen(s, o) && NameLen(t, o) == NameLen(s, o)
  {
    assert RecLen(t, o) == RecLen(s, o) && NameLen(t, o) == NameLen(s, o);
    if !(Illegal(s, o, k, c) || c.judge(o, s).Clear?) {
      assert Inode(t, o) == Inode(s, o);
      forall j | 0 <= j < NameLen(t, o) && !c.encrypted
        ensures Name(t, o)[j] != SLASH && Name(t, o)[j] != 0
      {
        assert Name(t, o)[j] == t[o + HEADER_LEN + j] == Cleaned(s, o, o + HEADER_LEN + j, c);
      }
    }
  }

  /** One pass through the body of the loop, for a sound entry. */
  method CheckEntry(buf: array<byte>, o: nat, dotState: nat, c: Rules) returns (dotdot: nat)
    requires BlockSize(buf.Length) && Sound(buf[..], o) && c.ino != 0
    modifies buf
    ensures Tidy(buf[..], o, dotState, c)
    ensures forall i :: 0 <= i < o ==> buf[i] == old(buf[i])
    ensures dotState == 0 ==> NameLen(buf[..], o) == 1 && buf[o + 8] == DOT
    ensures dotState == 1 ==> NameLen(buf[..], o) == 2 && buf[o + 8] == DOT && buf[o + 9] == DOT
    ensures dotState >= 1 || old(RecLen(buf[..], o)) <= 2 * MIN_ENTRY ==>
              RecLen(buf[..], o) == old(RecLen(buf[..], o)) && KeptFrom(old(buf[..]), buf[..], o + RecLen(buf[..], o))
    ensures dotdot == if dotState == 1 && old(IsDotDot(buf[..], o)) then old(Inode(buf[..], o)) else 0
    ensures dotState >= 2 ==> Repaired(old(buf[..]), buf[..], o, c)
    ensures InPlace(old(buf[..]), o, dotState, c) ==> buf[..] == old(buf[..])
  {
    hide Tidy, Illegal, Finished, Passes;
    dotdot := 0;
    ghost var s0 := buf[..];
    if dotState == 0 {
      CheckDot(buf, o, c.ino);
    } else if dotState == 1 {
      dotdot := CheckDotDot(buf, o);
    } else if Inode(buf[..], o) == c.ino {
      WriteInode(buf, o, 0);
      NotInUse(buf[..], o, dotState, c);
      return;
    }
    ghost var s := buf[..];
    if Inode(buf[..], o) != 0 {
      FinishEntry(buf, o, dotState, c);
      FinishedTidy(s, buf[..], o, dotState, c);
      FinishedKeeps(s, buf[..], o, dotState, c);
      if dotState >= 2 {
        FinishedLater(s, buf[..], o, dotState, c);
        if Settled(s0, o, c) {
          SettledStays(s0, buf[..], o, c);
        }
      } else if InPlace(s0, o, dotState, c) {
        PassesStays(s0, buf[..], o, dotState, c);
      }
    } else {
      NotInUse(buf[..], o, dotState, c);
    }
  }

  /** From the third entry on the tests are the same. */
  lemma FinishedLater(s: seq<byte>, t: seq<byte>, o: nat, k: nat, c: Rules)
    requires Sound(s, o) && k >= 2 && Finished(s, t, o, k, c)
    ensures Finished(s, t, o, 2, c)
  {
  }

  lemma NotInUse(s: seq<byte>, o: nat, k: nat, c: Rules)
    requires Sound(s, o) && Inode(s, o) == 0
    ensures Tidy(s, o, k, c)
  {
  }

  /** From `from` on nothing has changed. */
  predicate KeptFrom(s: seq<byte>, t: seq<byte>, from: nat) {
    |t| == |s| && forall i :: from <= i < |s| ==> t[i] == s[i]
  }

  lemma FinishedKeeps(s: seq<byte>, t: seq<byte>, o: nat, k: nat, c: Rules)
    requires Sound(s, o) && Finished(s, t, o, k, c)
    ensures (forall i :: 0 <= i < o ==> t[i] == s[i]) && KeptFrom(s, t, o + RecLen(s, o))
    ensures forall i :: o + 8 <= i < |s| && s[i] != SLASH && s[i] != 0 ==> t[i] == s[i]
  {
    hide Illegal;
  }

  /** The checks behind the special entries. */
  method FinishEntry(buf: array<byte>, o: nat, dotState: nat, c: Rules)
    requires BlockSize(buf.Length) && Sound(buf[..], o)
    modifies buf
    ensures Finished(old(buf[..]), buf[..], o, dotState, c)
  {
    hide Illegal;
    if Illegal(buf[..], o, dotState, c) {
      WriteInode(buf, o, 0);
      return;
    }
    match c.judge(o, buf[..])
    case Clear =>
      WriteInode(buf, o, 0);
    case Keep(fileType) =>
      if !c.encrypted {
        CheckName(buf, o);
      }
      buf[o + 7] := fileType;
  }

  /**
   The test for a second "." comes before the name is cleaned, and cleaning can make one. From the third entry on, an
   entry that stays in use is named "." exactly if it was named by a single slash or NUL.
   */
  lemma DotMadeExactly(s: seq<byte>, t: seq<byte>, o: nat, c: Rules)
    requires Sound(s, o) && Repaired(s, t, o, c) && Inode(s, o) != 0
    ensures Sound(t, o) && (Inode(t, o) != 0 && Name(t, o) == [DOT] <==>
              && Inode(s, o) != c.ino && !Illegal(s, o, 2, c) && c.judge(o, s).Keep?
              && !c.encrypted && (Name(s, o) == [SLASH] || Name(s, o) == [0]))
  {
    assert RecLen(t, o) == RecLen(s, o) && NameLen(t, o) == NameLen(s, o);
    if Inode(s, o) != c.ino && !Illegal(s, o, 2, c) && c.judge(o, s).Keep? {
      assert Inode(t, o) == Inode(s, o);
      if NameLen(s, o) == 1 {
        assert Name(s, o) == [s[o + 8]] && Name(t, o) == [t[o + 8]];
      }
    }
  }

  /** The entries from `from` to `end` are all settled. */
  predicate AllSettled(s: seq<byte>, from: nat, end: nat, c: Rules)
    requires from <= end <= |s|
    decreases end - from
  {
    from == end ||
    (&& Settled(s, from, c) && from + RecLen(s, from) <= end
     && AllSettled(s, from + RecLen(s, from), end, c))
  }

  /** The entries up to `end`, the last of them at `last`, are in order. */
  predicate GoodFront(s: seq<byte>, last: nat, end: nat, c: Rules) {
    TiledLast(s, last, end) && AllSettled(s, 0, end, c)
  }

  /** Below `end`, `t` differs from `s` at most in the length of the entry at `last`. */
  predicate KeptBelow(s: seq<byte>, t: seq<byte>, last: nat, end: nat) {
    && last + HEADER_LEN <= end <= |s| && |t| == |s|
    && forall i :: 0 <= i < end && i != last + 4 && i != last + 5 ==> t[i] == s[i]
  }
}
