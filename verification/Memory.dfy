/** The block-memory routines of lib.c over a flat byte memory. The word loops move four bytes
    at a time: all four are read before any is written. */
module Memory {

  /** m' is m with `bytes` laid over it from `at` on, and nothing else changed. */
  ghost predicate Overlaid<T>(m: seq<T>, m': seq<T>, at: int, bytes: seq<T>) {
    && |m'| == |m| && 0 <= at && at + |bytes| <= |m|
    && forall i {:trigger m'[i]} :: 0 <= i < |m| ==> m'[i] == if at <= i < at + |bytes| then bytes[i - at] else m[i]
  }

  /** A forward copy is safe while the source is not overtaken by the destination. */
  predicate ForwardSafe(dest: int, src: int, n: int) {
    dest <= src || src + n <= dest
  }

  /** The first k bytes have been copied: m is the memory before the copy. */
  ghost predicate CopiedUpTo(mem: array<int>, m: seq<int>, dest: int, src: int, k: int)
    requires |m| == mem.Length && 0 <= src && src + k <= |m|
    reads mem
  {
    forall i {:trigger mem[i]} :: 0 <= i < |m| ==> mem[i] == if dest <= i < dest + k then m[src + (i - dest)] else m[i]
  }

  /** One movsl. */
  method CopyWord(mem: array<int>, edi: nat, esi: nat)
    requires edi + 4 <= mem.Length && esi + 4 <= mem.Length
    modifies mem
    ensures forall i {:trigger mem[i]} :: 0 <= i < mem.Length ==>
            mem[i] == if edi <= i < edi + 4 then old(mem[esi + (i - edi)]) else old(mem[i])
  {
    var b0, b1, b2, b3 := mem[esi], mem[esi + 1], mem[esi + 2], mem[esi + 3];
    mem[edi], mem[edi + 1], mem[edi + 2], mem[edi + 3] := b0, b1, b2, b3;
  }

  /** The byte loops of memcpy: copy until nothing is left, or until the destination is aligned. */
  method CopyBytes(mem: array<int>, ghost m: seq<int>, dest: nat, src: nat, k: nat, n: nat, align: bool)
      returns (done: nat)
    requires k <= n && dest + n <= mem.Length && src + n <= mem.Length == |m| && ForwardSafe(dest, src, n)
    requires CopiedUpTo(mem, m, dest, src, k)
    modifies mem
    ensures k <= done <= n && CopiedUpTo(mem, m, dest, src, done)
    ensures if align then done == n || (dest + done) % 4 == 0 else done == n
  {
    done := k;
    while done != n && (align ==> (dest + done) % 4 != 0)
      invariant k <= done <= n && CopiedUpTo(mem, m, dest, src, done)
      decreases n - done
    {
      assert mem[src + done] == m[src + done];
      mem[dest + done] := mem[src + done];
      done := done + 1;
    }
  }

  /** The rep movsl of memcpy. */
  method CopyWords(mem: array<int>, ghost m: seq<int>, dest: nat, src: nat, k: nat, n: nat, ecx: nat)
      returns (done: nat)
    requires k + 4 * ecx <= n && dest + n <= mem.Length && src + n <= mem.Length == |m| && ForwardSafe(dest, src, n)
    requires CopiedUpTo(mem, m, dest, src, k)
    modifies mem
    ensures done == k + 4 * ecx && CopiedUpTo(mem, m, dest, src, done)
  {
    done := k;
    var words := ecx;
    while words != 0
      invariant 0 <= words && done == k + 4 * (ecx - words) && k <= done <= n
      invariant CopiedUpTo(mem, m, dest, src, done)
      decreases words
    {
      assert forall j :: src + done <= j < src + done + 4 ==> mem[j] == m[j];
      CopyWord(mem, dest + done, src + done);
      done := done + 4;
      words := words - 1;
    }
  }

  /** memcpy: bytes up to a word boundary of the destination, then words, then the remaining bytes. */
  method MemCpy(mem: array<int>, dest: nat, src: nat, n: nat)
    requires dest + n <= mem.Length && src + n <= mem.Length && (dest <= src || src + n <= dest)
    modifies mem
    ensures Overlaid(old(mem[..]), mem[..], dest, old(mem[src..src + n]))
  {
    ghost var m := mem[..];
    var done := CopyBytes(mem, m, dest, src, 0, n, true);
    done := CopyWords(mem, m, dest, src, done, n, (n - done) / 4);
    done := CopyBytes(mem, m, dest, src, done, n, false);
  }

  /** memmove: forwards when the source is not below the destination, else backwards; any overlap. */
  method MemMove(mem: array<int>, dest: nat, src: nat, n: nat)
    requires dest + n <= mem.Length && src + n <= mem.Length
    modifies mem
    ensures Overlaid(old(mem[..]), mem[..], dest, old(mem[src..src + n]))
  {
    ghost var m := mem[..];
    if src >= dest {
      var done := CopyBytes(mem, m, dest, src, 0, n, false);
    } else {
      var left := n;
      while left != 0
        invariant 0 <= left <= n
        invariant forall i {:trigger mem[i]} :: 0 <= i < |m| ==>
                  mem[i] == if dest + left <= i < dest + n then m[src + (i - dest)] else m[i]
        decreases left
      {
        assert mem[src + left - 1] == m[src + left - 1];
        mem[dest + left - 1] := mem[src + left - 1];
        left := left - 1;
      }
    }
  }

  lemma SplitByte(a: int, c: int)
    requires 0 <= c < 256
    ensures (256 * a + c) / 256 == a && (256 * a + c) % 256 == c
  {
  }

  /** One stosl: the word's bytes, lowest first. */
  method StoreWord(mem: array<int>, edi: nat, w: nat)
    requires edi + 4 <= mem.Length
    modifies mem
    ensures mem[edi] == w % 256 && mem[edi + 1] == w / 256 % 256
    ensures mem[edi + 2] == w / 256 / 256 % 256 && mem[edi + 3] == w / 256 / 256 / 256 % 256
    ensures forall i :: 0 <= i < mem.Length && !(edi <= i < edi + 4) ==> mem[i] == old(mem[i])
  {
    mem[edi], mem[edi + 1], mem[edi + 2], mem[edi + 3] :=
        w % 256, w / 256 % 256, w / 256 / 256 % 256, w / 256 / 256 / 256 % 256;
  }

  /** memset, for every alignment and length; only the low byte of c counts. */
  method MemSet(mem: array<int>, s: nat, c: int, n: nat)
    requires s + n <= mem.Length
    modifies mem
    ensures Overlaid(old(mem[..]), mem[..], s, seq(n, _ => c % 256))
  {
    ghost var m := mem[..];
    var b := c % 256;
    var eax := 256 * (256 * (256 * b + b) + b) + b;
    SplitByte(256 * (256 * b + b) + b, b);
    SplitByte(256 * b + b, b);
    SplitByte(b, b);
    var edi, ecx := s, n;
    while ecx != 0 && edi % 4 != 0
      invariant edi == s + (n - ecx) && 0 <= ecx <= n
      invariant forall i {:trigger mem[i]} :: 0 <= i < |m| ==> mem[i] == if s <= i < edi then b else m[i]
      decreases ecx
    {
      mem[edi] := eax % 256;
      edi, ecx := edi + 1, ecx - 1;
    }
    var edx := ecx % 4;
    ecx := ecx / 4;
    while ecx != 0
      invariant edi == s + (n - edx - 4 * ecx) && 0 <= ecx && 0 <= edx && edx + 4 * ecx <= n
      invariant forall i {:trigger mem[i]} :: 0 <= i < |m| ==> mem[i] == if s <= i < edi then b else m[i]
      decreases ecx
    {
      StoreWord(mem, edi, eax);
      edi, ecx := edi + 4, ecx - 1;
    }
    while edx != 0
      invariant edi == s + (n - edx) && 0 <= edx <= n
      invariant forall i {:trigger mem[i]} :: 0 <= i < |m| ==> mem[i] == if s <= i < edi then b else m[i]
      decreases edx
    {
      mem[edi] := eax % 256;
      edi, edx := edi + 1, edx - 1;
    }
  }
}
