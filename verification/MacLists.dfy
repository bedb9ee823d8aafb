/** The format test on MAC addresses and the abstract trusted-MAC list. */
module MacLists {
  import opened Clients

  predicate IsHexDigit(c: char) {
    '0' <= c <= '9' || 'a' <= c <= 'f' || 'A' <= c <= 'F'
  }

  /** Six pairs of hexadecimal digits separated by colons, and nothing else. */
  predicate MacFormat(s: string) {
    |s| == 17 && forall i :: 0 <= i < 17 ==> if i % 3 == 2 then s[i] == ':' else IsHexDigit(s[i])
  }

  /** `mac` is on the list, compared without case. */
  predicate IsTrusted(list: seq<string>, mac: string) {
    exists i :: 0 <= i < |list| && Lower(list[i]) == Lower(mac)
  }
}
