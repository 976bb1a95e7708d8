/**
 * MString: a dynamic string that owns a heap buffer of exactly count + 1
 * characters, terminated by NUL, or no buffer at all (the pointer is null
 * after `MString(true)` and after the string has been moved from).
 * The copying mutators (copy, the two copying assignments, Append,
 * operator+, InsertAt, RemoveAt) build a fresh buffer with memcpy from
 * slices of the old buffer and of the argument; the move operations take
 * over the argument's buffer, and Empty installs a fresh "" buffer.
 */
module MStrings {
  import opened CStrings

  /** The text after inserting t at position i of s. */
  function InsertedAt(s: seq<char>, i: nat, t: seq<char>): (r: seq<char>)
    requires i <= |s|
    ensures |r| == |s| + |t|
    ensures r[..i] == s[..i] && r[i..i + |t|] == t && r[i + |t|..] == s[i..]
  {
    s[..i] + t + s[i..]
  }

  /** The text after deleting the n characters of s that start at position i. */
  function RemovedAt(s: seq<char>, i: nat, n: nat): (r: seq<char>)
    requires i + n <= |s|
    ensures |r| == |s| - n
    ensures r[..i] == s[..i] && r[i..] == s[i + n..]
  {
    s[..i] + s[i + n..]
  }

  /** Deleting what was just inserted gives back the original text. */
  lemma InsertRemoveRoundTrip(s: seq<char>, i: nat, t: seq<char>)
    requires i <= |s|
    ensures RemovedAt(InsertedAt(s, i, t), i, |t|) == s
  {
  }

  /** Characters copied by RemoveAt after the removed run (the intended length). */
  function RemoveAtTail(count: nat, idx: nat, size: nat): (n: nat)
    requires idx + size <= count
    ensures idx + size + n == count
  {
    count - idx - size
  }

  /** A buffer that is a text followed by one terminator splits back into the two. */
  lemma Terminates(a: seq<char>, s: seq<char>)
    requires a == s + [NUL] && NulFree(s)
    ensures |a| == |s| + 1 && a[..|s|] == s && a[|s|] == NUL
  {
  }

  /** The buffer built by InsertAt is a valid buffer holding InsertedAt(s, i, t). */
  lemma SpliceTerminates(a: seq<char>, s: seq<char>, i: nat, t: seq<char>)
    requires NulFree(s) && NulFree(t) && i <= |s|
    requires a == s[..i] + t + s[i..] + [NUL]
    ensures a[..|s| + |t|] == InsertedAt(s, i, t)
    ensures NulFree(a[..|s| + |t|])
  {
  }

  /** The buffer built by RemoveAt is a valid buffer holding RemovedAt(s, i, n). */
  lemma CutTerminates(a: seq<char>, s: seq<char>, i: nat, n: nat)
    requires NulFree(s) && i + n <= |s|
    requires |a| == |s| - n + 1 && a[|s| - n] == NUL
    requires a[..|s| - n] == s[..i] + s[i + n..]
    ensures a[..|s| - n] == RemovedAt(s, i, n)
    ensures NulFree(a[..|s| - n])
  {
  }

  /**
   * The buffer Append and operator+ build: count characters of the old
   * buffer followed by n characters of the argument, its terminator included.
   */
  method JoinBuffer(mine: seq<char>, count: nat, src: seq<char>, n: nat) returns (temp: array<char>)
    requires count <= |mine| && n <= |src|
    ensures fresh(temp)
    ensures temp[..] == mine[..count] + src[..n]
  {
    temp := new char[count + n];
    MemCopy(temp, 0, mine, 0, count);
    MemCopy(temp, count, src, 0, n);
  }

  /**
   * The buffer InsertAt builds: idx characters of the old buffer, len
   * characters of the inserted text, the rest of the old text, a terminator.
   */
  method SpliceBuffer(mine: seq<char>, count: nat, idx: nat, src: seq<char>, len: nat)
    returns (temp: array<char>)
    requires idx <= count <= |mine| && len <= |src|
    ensures fresh(temp)
    ensures temp[..] == mine[..idx] + src[..len] + mine[idx..count] + [NUL]
  {
    temp := new char[count + len + 1];
    MemCopy(temp, 0, mine, 0, idx);
    MemCopy(temp, idx, src, 0, len);
    MemCopy(temp, idx + len, mine, idx, count - idx);
    temp[count + len] := NUL;
    assert temp[..] == temp[..count + len] + [NUL];
  }

  class MString {
    /** The heap buffer; null models the null pointer. */
    var buf: array?<char>
    /** The number of characters before the terminator. */
    var count: nat

    /** Representation invariant kept by every constructor and mutator. */
    ghost predicate Valid()
      reads this, buf
    {
      if buf == null then count == 0
      else buf.Length == count + 1 && buf[count] == NUL && NulFree(buf[..count])
    }

    predicate IsNull()
      reads this
    {
      buf == null
    }

    /** The characters of the string; a null buffer holds none. */
    function Contents(): (s: seq<char>)
      reads this, buf
      requires Valid()
      ensures |s| == count && NulFree(s)
    {
      if buf == null then [] else buf[..count]
    }

    /** Everything readable through the buffer pointer, terminator included. */
    function Memory(): (m: seq<char>)
      reads this, buf
      requires Valid()
      ensures buf == null ==> m == []
      ensures buf != null ==> m == Contents() + [NUL]
    {
      if buf == null then [] else buf[..]
    }

    /** Str(): the buffer as a C string, whose strlen is the count. */
    function Str(): (p: seq<char>)
      reads this, buf
      requires Valid() && buf != null
      ensures Terminated(p) && StrLen(p) == count && Text(p) == Contents()
      ensures p == Contents() + [NUL]
    {
      TextOfTerminated(Contents(), []);
      assert Contents() + [NUL] + [] == Memory();
      Memory()
    }

    /** Count(): the length of the contents. */
    function Count(): (n: nat)
      reads this, buf
      requires Valid()
      ensures n == |Contents()|
      ensures buf != null ==> n == StrLen(Str())
    {
      count
    }

    /** ValidIndex(idx): the string has a character at idx. */
    function ValidIndex(idx: nat): (b: bool)
      reads this, buf
      requires Valid()
      ensures b <==> !IsNull() && idx < |Contents()|
      ensures b ==> Str()[idx] == Contents()[idx] != NUL
    {
      buf != null && count > idx
    }

    /** operator[] read: the character at idx, the terminator at idx == count. */
    function At(idx: nat): (c: char)
      reads this, buf
      requires Valid() && buf != null && idx <= count
      ensures idx < count ==> c == Contents()[idx]
      ensures c == NUL <==> idx == count
    {
      buf[idx]
    }

    /** operator==(const MString&): strcmp of both buffers is zero. */
    function Equals(other: MString): (b: bool)
      reads this, buf, other, other.buf
      requires Valid() && other.Valid() && buf != null && other.buf != null
      ensures b <==> Contents() == other.Contents()
    {
      StrCmpZeroIff(Str(), other.Str());
      StrCmp(Str(), other.Str()) == 0
    }

    /** operator==(char*): strcmp of the buffer and the C string is zero. */
    function EqualsCStr(p: seq<char>): (b: bool)
      reads this, buf
      requires Valid() && buf != null && Terminated(p)
      ensures b <==> Contents() == Text(p)
    {
      StrCmpZeroIff(Str(), p);
      StrCmp(Str(), p) == 0
    }

    /** Contains(const MString&): strstr finds sub's text in this string. */
    function Contains(sub: MString): (b: bool)
      reads this, buf, sub, sub.buf
      requires Valid() && sub.Valid() && buf != null && sub.buf != null
      ensures b <==> exists i :: OccursAt(Contents(), sub.Contents(), i)
    {
      StrStr(Str(), sub.Str()).Some?
    }

    /** Contains(char*): strstr finds the C string's text in this string. */
    function ContainsCStr(p: seq<char>): (b: bool)
      reads this, buf
      requires Valid() && buf != null && Terminated(p)
      ensures b <==> exists i :: OccursAt(Contents(), Text(p), i)
    {
      StrStr(Str(), p).Some?
    }

    /** MString(bool empty): no buffer when empty, otherwise the one-character buffer "". */
    constructor (empty: bool)
      ensures Valid() && Contents() == []
      ensures IsNull() <==> empty
      ensures !empty ==> fresh(buf)
    {
      if empty {
        buf := null;
        count := 0;
      } else {
        var one := new char[1];
        one[0] := NUL;
        buf := one;
        count := 0;
      }
    }

    /** MString(const char*). */
    constructor FromCStr(p: seq<char>)
      requires Terminated(p)
      ensures Valid() && !IsNull() && fresh(buf)
      ensures Contents() == Text(p)
    {
      buf := null;
      count := 0;
      new;
      CopyCStr(p);
    }

    /** MString(const char*, unsigned length): at most length characters of p. */
    constructor FromCStrBounded(p: seq<char>, length: nat)
      requires Terminated(p)
      ensures Valid() && !IsNull() && fresh(buf)
      ensures count == (if length > StrLen(p) then StrLen(p) else length)
      ensures Str() == p[..count] + [NUL]
      ensures Contents() == Text(p)[..count]
    {
      buf := null;
      count := 0;
      new;
      CopyCStrBounded(p, length);
    }

    /** MString(const MString&). */
    constructor Copy(other: MString)
      requires other.Valid() && other.buf != null
      ensures Valid() && !IsNull() && fresh(buf)
      ensures Contents() == other.Contents()
    {
      buf := null;
      count := 0;
      new;
      CopyFrom(other);
    }

    /** MString(MString&&): takes over other's buffer and leaves other null and empty. */
    constructor Move(other: MString)
      requires other.Valid()
      modifies other
      ensures Valid() && other.Valid()
      ensures buf == old(other.buf) && Contents() == old(other.Contents())
      ensures other.IsNull() && other.Contents() == []
    {
      buf := other.buf;
      count := other.count;
      new;
      other.buf := null;
      other.count := 0;
    }

    /** Private copy(const char*): a fresh buffer holding p's text and terminator. */
    method CopyCStr(p: seq<char>)
      requires Terminated(p)
      modifies this
      ensures Valid() && !IsNull() && fresh(buf)
      ensures Contents() == Text(p)
    {
      var size := StrLen(p);
      var temp := new char[size + 1];
      MemCopy(temp, 0, p, 0, size + 1);
      buf := temp;
      count := size;
      assert buf[..count] == p[..size];
    }

    /** Private copy(const MString&): a fresh buffer holding other's characters and terminator. */
    method CopyFrom(other: MString)
      requires other.Valid() && other.buf != null
      modifies this
      ensures Valid() && !IsNull() && fresh(buf)
      ensures Contents() == old(other.Contents())
    {
      var src := other.Memory();
      count := other.count;
      var temp := new char[count + 1];
      MemCopy(temp, 0, src, 0, count + 1);
      buf := temp;
      assert buf[..] == src;
      assert buf[..count] == src[..count];
    }

    /** Private copy(const char*, unsigned length): the first min(length, strlen) characters. */
    method CopyCStrBounded(p: seq<char>, length: nat)
      requires Terminated(p)
      modifies this
      ensures Valid() && !IsNull() && fresh(buf)
      ensures count == (if length > StrLen(p) then StrLen(p) else length)
      ensures Str() == p[..count] + [NUL]
      ensures Contents() == Text(p)[..count]
    {
      var otherLen := StrLen(p);
      count := if length > otherLen then otherLen else length;
      var temp := new char[count + 1];
      MemCopy(temp, 0, p, 0, count);
      temp[count] := NUL;
      buf := temp;
      assert buf[..count] == p[..count] == Text(p)[..count];
      assert buf[..] == p[..count] + [NUL];
    }

    /** operator=(const char*): replaces the buffer by a copy of p. */
    method AssignCStr(p: seq<char>)
      requires Valid() && Terminated(p)
      modifies this
      ensures Valid() && !IsNull() && fresh(buf)
      ensures Contents() == Text(p)
    {
      CopyCStr(p);
    }

    /** operator=(const MString&): other must be another object, its buffer is read after this one is freed. */
    method Assign(other: MString)
      requires Valid() && other.Valid() && other.buf != null
      requires other != this
      modifies this
      ensures Valid() && !IsNull() && fresh(buf)
      ensures Contents() == other.Contents()
    {
      CopyFrom(other);
    }

    /** operator=(MString&&): takes over other's buffer; moving into itself leaves the string null. */
    method MoveAssign(other: MString)
      requires Valid() && other.Valid()
      modifies this, other
      ensures Valid() && other.Valid()
      ensures other.IsNull() && other.Contents() == []
      ensures other != this ==> buf == old(other.buf) && Contents() == old(other.Contents())
    {
      buf := other.buf;
      other.buf := null;
      count := other.count;
      other.count := 0;
    }

    /** operator+(const MString&) const: a new string holding both texts; neither operand changes. */
    method Plus(other: MString) returns (ret: MString)
      requires Valid() && other.Valid() && other.buf != null
      ensures fresh(ret) && fresh(ret.buf) && ret.Valid()
      ensures ret.Contents() == Contents() + other.Contents()
      ensures ret.Count() == Count() + other.Count()
    {
      var mine := Memory();
      var theirs := other.Memory();
      ghost var s, t := Contents(), other.Contents();
      ret := new MString(true);
      ret.count := count + other.count;
      var temp := JoinBuffer(mine, count, theirs, other.count + 1);
      assert temp[..] == s + t + [NUL];
      ret.buf := temp;
      Terminates(temp[..], s + t);
    }

    /** operator+(const char*) const: a new string holding this text followed by p's. */
    method PlusCStr(p: seq<char>) returns (ret: MString)
      requires Valid() && Terminated(p)
      ensures fresh(ret) && fresh(ret.buf) && ret.Valid()
      ensures ret.Contents() == Contents() + Text(p)
      ensures ret.Count() == Count() + StrLen(p)
    {
      var mine := Memory();
      ghost var s, t := Contents(), Text(p);
      ret := new MString(true);
      var len := StrLen(p);
      ret.count := len + count;
      assert p[..len + 1] == t + [NUL];
      var temp := JoinBuffer(mine, count, p, len + 1);
      assert temp[..] == s + t + [NUL];
      ret.buf := temp;
      Terminates(temp[..], s + t);
    }

    /** Append(const MString&): other's characters go after this string's; other does not change. */
    method Append(other: MString)
      requires Valid() && other.Valid() && other.buf != null
      modifies this
      ensures Valid() && !IsNull() && fresh(buf)
      ensures Contents() == old(Contents()) + old(other.Contents())
      ensures count == old(count) + old(other.count)
      ensures other != this ==> other.Contents() == old(other.Contents())
    {
      var mine := Memory();
      var theirs := other.Memory();
      ghost var s, t := Contents(), other.Contents();
      var n := other.count;
      var temp := JoinBuffer(mine, count, theirs, n + 1);
      assert temp[..] == s + t + [NUL];
      buf := temp;
      count := count + n;
      Terminates(temp[..], s + t);
    }

    /** Append(char*): p's text goes after this string's. */
    method AppendCStr(p: seq<char>)
      requires Valid() && Terminated(p)
      modifies this
      ensures Valid() && !IsNull() && fresh(buf)
      ensures Contents() == old(Contents()) + Text(p)
      ensures count == old(count) + StrLen(p)
    {
      var mine := Memory();
      ghost var s, t := Contents(), Text(p);
      var len := StrLen(p);
      assert p[..len + 1] == t + [NUL];
      var temp := JoinBuffer(mine, count, p, len + 1);
      assert temp[..] == s + t + [NUL];
      buf := temp;
      count := count + len;
      Terminates(temp[..], s + t);
    }

    /** operator+=(const MString&). */
    method AddAssign(other: MString)
      requires Valid() && other.Valid() && other.buf != null
      modifies this
      ensures Valid() && !IsNull() && fresh(buf)
      ensures Contents() == old(Contents()) + old(other.Contents())
      ensures other != this ==> other.Contents() == old(other.Contents())
    {
      Append(other);
    }

    /** operator+=(const char*). */
    method AddAssignCStr(p: seq<char>)
      requires Valid() && Terminated(p)
      modifies this
      ensures Valid() && !IsNull() && fresh(buf)
      ensures Contents() == old(Contents()) + Text(p)
    {
      AppendCStr(p);
    }

    /** Empty(): a null string stays null; otherwise the buffer becomes "". */
    method Empty()
      requires Valid()
      modifies this
      ensures Valid()
      ensures old(buf) == null ==> unchanged(this)
      ensures old(buf) != null ==> !IsNull() && fresh(buf) && Contents() == []
    {
      if buf == null {
        return;
      }
      var one := new char[1];
      one[0] := NUL;
      buf := one;
      count := 0;
    }

    /** InsertAt(unsigned idx, char*): p's text goes in at idx; an idx past the end changes nothing. */
    method InsertAtCStr(idx: nat, p: seq<char>)
      requires Valid() && Terminated(p)
      modifies this
      ensures Valid()
      ensures idx > old(count) ==> unchanged(this)
      ensures idx <= old(count) ==> !IsNull() && fresh(buf)
      ensures idx <= old(count) ==> Contents() == InsertedAt(old(Contents()), idx, Text(p))
      ensures idx <= old(count) ==> count == old(count) + StrLen(p)
    {
      if idx > count {
        return;
      }
      var mine := Memory();
      ghost var s, t := Contents(), Text(p);
      var len := StrLen(p);
      var temp := SpliceBuffer(mine, count, idx, p, len);
      count := count + len;
      SpliceTerminates(temp[..], s, idx, t);
      buf := temp;
    }

    /** InsertAt(unsigned idx, const MString&): other's text goes in at idx; an idx past the end changes nothing. */
    method InsertAt(idx: nat, other: MString)
      requires Valid() && other.Valid()
      modifies this
      ensures Valid()
      ensures idx > old(count) ==> unchanged(this)
      ensures idx <= old(count) ==> !IsNull() && fresh(buf)
      ensures idx <= old(count) ==> Contents() == InsertedAt(old(Contents()), idx, old(other.Contents()))
      ensures idx <= old(count) ==> count == old(count) + old(other.count)
      ensures other != this ==> other.Contents() == old(other.Contents())
    {
      if idx > count {
        return;
      }
      var mine := Memory();
      var theirs := other.Memory();
      ghost var s, t := Contents(), other.Contents();
      var n := other.count;
      var temp := SpliceBuffer(mine, count, idx, theirs, n);
      count := count + n;
      SpliceTerminates(temp[..], s, idx, t);
      buf := temp;
    }

    /**
     * RemoveAt(unsigned idx, unsigned size): the size characters starting at
     * idx are deleted; a run that ends past the string changes nothing.
     */
    method RemoveAt(idx: nat, size: nat)
      requires Valid()
      modifies this
      ensures Valid()
      ensures idx + size > old(count) ==> unchanged(this)
      ensures idx + size <= old(count) ==> !IsNull() && fresh(buf)
      ensures idx + size <= old(count) ==> Contents() == RemovedAt(old(Contents()), idx, size)
      ensures idx + size <= old(count) ==> count == old(count) - size
    {
      if idx + size > count {
        return;
      }
      var mine := Memory();
      ghost var s := Contents();
      var temp := new char[count - size + 1];
      MemCopy(temp, 0, mine, 0, idx);
      assert temp[..idx] == s[..idx];
      MemCopy(temp, idx, mine, idx + size, RemoveAtTail(count, idx, size));
      assert temp[..count - size] == s[..idx] + s[idx + size..];
      count := count - size;
      temp[count] := NUL;
      CutTerminates(temp[..], s, idx, size);
      buf := temp;
    }

    /** ToLower() const: a copy with every character lower-cased; this string does not change. */
    method ToLower() returns (ret: MString)
      requires Valid() && buf != null
      ensures fresh(ret) && fresh(ret.buf) && ret.Valid()
      ensures ret.Contents() == Lower(Contents())
      ensures ret.Count() == Count()
    {
      ret := new MString.Copy(this);
      var a := ret.buf;
      ghost var s := Contents();
      var i := 0;
      while a[i] != NUL
        modifies a
        invariant 0 <= i <= count && a.Length == count + 1 && a[count] == NUL
        invariant forall j :: 0 <= j < i ==> a[j] == LowerChar(s[j])
        invariant forall j :: i <= j < count ==> a[j] == s[j]
        decreases count - i
      {
        a[i] := LowerChar(a[i]);
        i := i + 1;
      }
      assert a[..count] == Lower(s);
      CaseMappingKeepsNulFree(s);
    }

    /** ToUpper() const: a copy with every character upper-cased; this string does not change. */
    method ToUpper() returns (ret: MString)
      requires Valid() && buf != null
      ensures fresh(ret) && fresh(ret.buf) && ret.Valid()
      ensures ret.Contents() == Upper(Contents())
      ensures ret.Count() == Count()
    {
      ret := new MString.Copy(this);
      var a := ret.buf;
      ghost var s := Contents();
      var i := 0;
      while a[i] != NUL
        modifies a
        invariant 0 <= i <= count && a.Length == count + 1 && a[count] == NUL
        invariant forall j :: 0 <= j < i ==> a[j] == UpperChar(s[j])
        invariant forall j :: i <= j < count ==> a[j] == s[j]
        decreases count - i
      {
        a[i] := UpperChar(a[i]);
        i := i + 1;
      }
      assert a[..count] == Upper(s);
      CaseMappingKeepsNulFree(s);
    }
  }
}
