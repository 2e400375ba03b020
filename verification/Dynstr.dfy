/** The growing NUL-terminated buffer of atf-c/detail/dynstr.c. */
module Dynstr {
  import opened Options
  import opened Strings

  /** memcpy of a string into a buffer. */
  method MemCpy(dst: array<char>, at: nat, src: string)
    requires at + |src| <= dst.Length
    modifies dst
    ensures dst[..at] == old(dst[..at]) && dst[at..at + |src|] == src
    ensures dst[at + |src|..] == old(dst[at + |src|..])
  {
    var i := 0;
    while i < |src|
      invariant i <= |src|
      invariant dst[..at] == old(dst[..at]) && dst[at..at + i] == src[..i]
      invariant dst[at + i..] == old(dst[at + i..])
    {
      dst[at + i] := src[i];
      i := i + 1;
    }
    assert src[..i] == src;
  }

  /** memmove towards higher addresses: the regions may overlap, so it copies from the end. */
  method MemMoveUp(buf: array<char>, shift: nat, n: nat)
    requires shift + n <= buf.Length
    modifies buf
    ensures buf[shift..shift + n] == old(buf[..n])
    ensures buf[shift + n..] == old(buf[shift + n..])
  {
    var i := n;
    while i > 0
      invariant 0 <= i <= n
      invariant buf[..i] == old(buf[..i])
      invariant buf[shift + i..shift + n] == old(buf[i..n])
      invariant buf[shift + n..] == old(buf[shift + n..])
    {
      i := i - 1;
      buf[shift + i] := buf[i];
      assert buf[shift + i..shift + n] == [buf[shift + i]] + buf[shift + i + 1..shift + n];
    }
  }

  /** The prepending move: the first n characters make room for aux. */
  method InsertInFront(buf: array<char>, n: nat, aux: string)
    requires n + |aux| <= buf.Length
    modifies buf
    ensures buf[..|aux| + n] == aux + old(buf[..n])
  {
    MemMoveUp(buf, |aux|, n);
    assert buf[|aux|..][..n] == buf[|aux|..|aux| + n];
    MemCpy(buf, 0, aux);
    assert buf[|aux|..|aux| + n] == buf[|aux|..][..n];
    assert buf[..|aux| + n] == buf[0..|aux|] + buf[|aux|..|aux| + n];
  }

  method WriteBehind(buf: array<char>, n: nat, aux: string)
    requires n + |aux| <= buf.Length
    modifies buf
    ensures buf[..n + |aux|] == old(buf[..n]) + aux
  {
    MemCpy(buf, n, aux);
    assert buf[..n + |aux|] == buf[..n] + buf[n..n + |aux|];
  }

  class Dynstr {
    var data: array<char>
    var datasize: nat
    var length: nat

    ghost predicate Valid()
      reads this, data
    {
      && datasize == data.Length
      && length < datasize
      && data[length] == '\0'
      && NulFree(data[..length])
    }

    ghost function View(): (s: string)
      requires Valid()
      reads this, data
      ensures NulFree(s) && |s| == length
    {
      data[..length]
    }

    /** atf_dynstr_init */
    constructor ()
      ensures Valid() && View() == "" && fresh(data)
    {
      data := new char[1](_ => '\0');
      datasize := 1;
      length := 0;
    }

    /** atf_dynstr_init_ap, with the text that the format produces: the buffer doubles until
        vsnprintf no longer reports a text that does not fit. */
    constructor InitFmt(fmt: string, text: string)
      requires NulFree(text)
      ensures Valid() && View() == text && fresh(data)
      ensures datasize == 2 * (|fmt| + 1) || datasize <= 2 * |text|
    {
      var size := |fmt| + 1;
      var buf: array<char>;
      var len := 0;
      size := size * 2;
      buf := new char[size](_ => '\0');
      len := VsnPrintf(buf, text);
      while len >= size
        invariant size > 0 && len == |text| && fresh(buf) && buf.Length == size
        invariant size == 2 * (|fmt| + 1) || size <= 2 * |text|
        invariant len < size ==> buf[..len + 1] == text + "\0"
        decreases len - size
      {
        size := size * 2;
        buf := new char[size](_ => '\0');
        len := VsnPrintf(buf, text);
      }
      data := buf;
      datasize := size;
      length := len;
      assert buf[..len] == buf[..len + 1][..len] == text;
      assert buf[len] == (text + "\0")[len];
    }

    /** atf_dynstr_init_raw: the text ends at the first NUL of the memory. */
    constructor InitRaw(mem: string)
      ensures Valid() && View() == CString(mem) && fresh(data)
    {
      var buf := new char[|mem| + 1](_ => '\0');
      MemCpy(buf, 0, mem);
      buf[|mem|] := '\0';
      assert buf[..] == mem + "\0";
      data := buf;
      datasize := |mem| + 1;
      length := |CString(mem)|;
      assert buf[..|mem|] == mem;
      assert mem[..|CString(mem)|] == CString(mem);
      assert buf[..|CString(mem)|] == mem[..|CString(mem)|];
    }

    /** atf_dynstr_init_substr */
    constructor InitSubstr(src: Dynstr, beg: nat, end: Option<nat>)
      requires src.Valid()
      requires Clamp(beg, src.length) <= EndClamp(end, src.length)
      ensures Valid() && fresh(data)
      ensures View() == src.View()[Clamp(beg, src.length)..EndClamp(end, src.length)]
    {
      var b := if beg > src.length then src.length else beg;
      var e := if end.None? || end.value > src.length then src.length else end.value;
      var mem := src.data[b..e];
      assert src.View()[Clamp(beg, src.length)..EndClamp(end, src.length)] == mem by {
        assert src.data[b..e] == src.data[..src.length][b..e];
      }
      assert NulFree(mem) by {
        assert forall i :: b <= i < e ==> src.data[i] == src.View()[i];
      }
      var buf := new char[|mem| + 1](_ => '\0');
      MemCpy(buf, 0, mem);
      buf[|mem|] := '\0';
      assert buf[..] == mem + "\0";
      data := buf;
      datasize := |mem| + 1;
      length := |CString(mem)|;
    }

    /** atf_dynstr_cstring: what a reader of the buffer sees up to its first NUL is the whole text. */
    function CStr(): (s: string)
      requires Valid()
      reads this, data
      ensures s == View() && |s| == length
    {
      CStringIs(data[..], data[..length]);
      CString(data[..])
    }

    /** resize */
    method Resize(newsize: nat)
      requires Valid() && newsize > datasize
      modifies this
      ensures Valid() && View() == old(View()) && length == old(length)
      ensures datasize == newsize && fresh(data)
    {
      var newdata := new char[newsize](_ => '\0');
      MemCpy(newdata, 0, data[..length + 1]);  // strcpy: the text and its NUL
      assert newdata[..length + 1] == data[..length + 1];
      assert newdata[..length] == newdata[..length + 1][..length] == data[..length];
      data := newdata;
      datasize := newsize;
    }

    /** prepend_or_append, with the text that the format produces. */
    method PrependOrAppend(aux: string, prepend: bool)
      requires Valid() && NulFree(aux)
      modifies this, data
      ensures Valid() && View() == if prepend then aux + old(View()) else old(View()) + aux
      ensures data == old(data) || fresh(data)
    {
      ghost var was := View();
      var newlen := length + |aux|;
      if newlen + 1 > datasize {
        Resize(newlen + 1);
      }
      assert data[..length + 1] == was + "\0";
      ghost var now := if prepend then aux + was else was + aux;
      if prepend {
        InsertInFront(data, length + 1, aux);
        assert aux + (was + "\0") == now + "\0";
      } else {
        assert data[..length] == was;
        WriteBehind(data, length, aux + "\0");
        assert was + (aux + "\0") == now + "\0";
      }
      length := newlen;
      assert data[..newlen + 1] == now + "\0";
      assert data[..newlen] == data[..newlen + 1][..newlen] == now;
      assert data[newlen] == (now + "\0")[newlen];
    }

    /** atf_dynstr_append_fmt, atf_dynstr_prepend_fmt */
    method Append(text: string)
      requires Valid() && NulFree(text)
      modifies this, data
      ensures Valid() && View() == old(View()) + text
      ensures data == old(data) || fresh(data)
    {
      PrependOrAppend(text, false);
    }

    method Prepend(text: string)
      requires Valid() && NulFree(text)
      modifies this, data
      ensures Valid() && View() == text + old(View())
      ensures data == old(data) || fresh(data)
    {
      PrependOrAppend(text, true);
    }

    /** atf_dynstr_clear */
    method Clear()
      requires Valid()
      modifies this, data
      ensures Valid() && View() == "" && data == old(data)
    {
      data[0] := '\0';
      length := 0;
    }

    /** atf_dynstr_rfind_ch: the last position of ch; None is atf_dynstr_npos. */
    method RFindCh(ch: char) returns (p: Option<nat>)
      requires Valid()
      ensures p == StrRChr(View(), ch)
    {
      var pos := length;
      while pos > 0 && data[pos - 1] != ch
        invariant 0 <= pos <= length && ch !in View()[pos..]
      {
        pos := pos - 1;
      }
      p := if pos == 0 then None else Some(pos - 1);
      StrRChrIs(View(), ch, pos);
    }
  }

  /** The end of a substring; None is atf_dynstr_npos. */
  function EndClamp(end: Option<nat>, max: nat): (e: nat)
    ensures e <= max && (end.None? ==> e == max)
    ensures end.Some? ==> e <= end.value && (e == end.value || e == max)
  {
    if end.None? then max else Clamp(end.value, max)
  }

  /** The smaller one */
  function Clamp(n: nat, max: nat): (m: nat)
    ensures m <= n && m <= max && (m == n || m == max)
  {
    if n > max then max else n
  }

  /** vsnprintf: as much of the text as fits with its NUL; the length of the whole text. */
  method VsnPrintf(buf: array<char>, text: string) returns (ret: nat)
    requires buf.Length > 0
    modifies buf
    ensures ret == |text|
    ensures ret < buf.Length ==> buf[..ret + 1] == text + "\0"
  {
    var n := if |text| < buf.Length then |text| else buf.Length - 1;
    MemCpy(buf, 0, text[..n] + "\0");
    ret := |text|;
    if ret < buf.Length {
      assert text[..n] == text;
      assert buf[..ret + 1] == text + "\0";
    }
  }
}
