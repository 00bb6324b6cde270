/** What several modules share. */
module Common {

  datatype Option<+T> = None | Some(value: T)

  lemma Assoc<T>(a: seq<T>, b: seq<T>, c: seq<T>)
    ensures (a + b) + c == a + (b + c)
  {
  }

  predicate HexChar(c: char) {
    c in "0123456789abcdefABCDEF"
  }

  lemma HexCharTable(c: char)
    ensures HexChar(c) <==> c in "0123456789abcdefABCDEF"
  {
  }

  lemma HexCharIs(c: char)
    ensures HexChar(c) <==> '0' <= c <= '9' || 'a' <= c <= 'f' || 'A' <= c <= 'F'
  {
    var table := "0123456789abcdefABCDEF";
    if '0' <= c <= '9' {
      assert table[c as int - '0' as int] == c;
    } else if 'a' <= c <= 'f' {
      assert table[10 + (c as int - 'a' as int)] == c;
    } else if 'A' <= c <= 'F' {
      assert table[16 + (c as int - 'A' as int)] == c;
    }
  }

  /** memmove of the first n elements to the right. */
  method MoveRight<T>(buf: array<T>, n: nat, gap: nat)
    requires n + gap <= buf.Length
    modifies buf
    ensures buf[..] == old(buf[..gap]) + old(buf[..n]) + old(buf[n + gap..])
  {
    forall k | 0 <= k < n {
      buf[k + gap] := buf[k];
    }
  }
}
