/** The letters and digits of ASCII, spelled out. */
module Letters {

  const UPPER := "ABCDEFGHIJKLMNOPQRSTUVWXYZ"
  const LOWER := "abcdefghijklmnopqrstuvwxyz"
  const DECIMAL := "0123456789"

  lemma UpperTable(i: nat)
    requires i < 26
    ensures UPPER[i] == ('A' as int + i) as char
  {
  }

  lemma LowerTable(i: nat)
    requires i < 26
    ensures LOWER[i] == ('a' as int + i) as char
  {
  }

  lemma DecimalTable(i: nat)
    requires i < 10
    ensures DECIMAL[i] == ('0' as int + i) as char
  {
  }

  /** The ranges hold just these characters. */
  lemma Ranges(c: char)
    ensures c in UPPER <==> 'A' <= c <= 'Z'
    ensures c in LOWER <==> 'a' <= c <= 'z'
    ensures c in DECIMAL <==> '0' <= c <= '9'
  {
    InUpper(c);
    InLower(c);
    InDecimal(c);
  }

  lemma InUpper(c: char)
    ensures c in UPPER <==> 'A' <= c <= 'Z'
  {
    if 'A' <= c <= 'Z' {
      UpperTable(c as int - 'A' as int);
    }
  }

  lemma InLower(c: char)
    ensures c in LOWER <==> 'a' <= c <= 'z'
  {
    if 'a' <= c <= 'z' {
      LowerTable(c as int - 'a' as int);
    }
  }

  lemma InDecimal(c: char)
    ensures c in DECIMAL <==> '0' <= c <= '9'
  {
    if '0' <= c <= '9' {
      DecimalTable(c as int - '0' as int);
    }
  }
}
