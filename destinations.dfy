/**
 * The constant destination table of src/destinations.c: the hostnames the
 * client may be pointed at by index, with "localhost" added at index 0.
 */
module Destinations {
  /**
   * The largest valid index. Its definition (destinations.h) is not part of
   * this model; 21 is the value the 22 initialisers of the table imply.
   */
  const DestMax: nat := 21

  const Table: seq<string> := [
    "localhost",
    "www.bbc.co.uk",
    "www.speedtest6.com",
    "www.yahoo.com",
    "he.net",
    "www.youtube.com",
    "axu.tm",
    "www.google.com",
    "www.ietf.org",
    "www.viagenie.ca",
    "www.facebook.com",
    "www.gmail.com",
    "cloudflare.com",
    "ipv6-test.com",
    "tum.de",
    "www.itu.int",
    "ipv6now.com.au",
    "www.nanog.org",
    "www.netflix.com",
    "www.instagram.com",
    "www.wikipedia.org",
    "www.yandex.ru"
  ]

  /** A character a DNS hostname may contain: a lower-case letter, a digit, a hyphen or a dot. */
  predicate HostChar(c: char)
  {
    ('a' <= c <= 'z') || ('0' <= c <= '9') || c == '-' || c == '.'
  }

  /** A non-empty dotted name of host characters that neither starts nor ends with a dot. */
  predicate IsHostname(s: string)
  {
    && |s| > 0
    && s[0] != '.' && s[|s| - 1] != '.'
    && forall i :: 0 <= i < |s| ==> HostChar(s[i])
  }

  /** The table has one entry for each index 0..DEST_MAX. */
  lemma TableSize()
    ensures |Table| == DestMax + 1
  {
  }

  /** Index 0 is the local machine. */
  lemma LocalhostFirst()
    ensures Table[0] == "localhost"
  {
  }

  /** Every entry is a well-formed, non-empty hostname of at most 18 characters. */
  lemma EntriesAreHostnames()
    ensures forall i :: 0 <= i < |Table| ==> IsHostname(Table[i]) && |Table[i]| <= 18
  {
    HostnamesIn0To3();
    HostnamesIn4To7();
    HostnamesIn8To11();
    HostnamesIn12To16();
    HostnamesIn17To21();
  }

  // The entries are checked literal by literal, a few per lemma to keep each proof small.

  lemma HostnamesIn0To3()
    ensures forall i :: 0 <= i < 4 ==> IsHostname(Table[i]) && |Table[i]| <= 18
  {
    forall i | 0 <= i < 4
      ensures IsHostname(Table[i]) && |Table[i]| <= 18
    {
      if i == 0 { assert Table[i] == "localhost"; }
      else if i == 1 { assert Table[i] == "www.bbc.co.uk"; }
      else if i == 2 { assert Table[i] == "www.speedtest6.com"; }
      else { assert Table[i] == "www.yahoo.com"; }
    }
  }

  lemma HostnamesIn4To7()
    ensures forall i :: 4 <= i < 8 ==> IsHostname(Table[i]) && |Table[i]| <= 18
  {
    forall i | 4 <= i < 8
      ensures IsHostname(Table[i]) && |Table[i]| <= 18
    {
      if i == 4 { assert Table[i] == "he.net"; }
      else if i == 5 { assert Table[i] == "www.youtube.com"; }
      else if i == 6 { assert Table[i] == "axu.tm"; }
      else { assert Table[i] == "www.google.com"; }
    }
  }

  lemma HostnamesIn8To11()
    ensures forall i :: 8 <= i < 12 ==> IsHostname(Table[i]) && |Table[i]| <= 18
  {
    forall i | 8 <= i < 12
      ensures IsHostname(Table[i]) && |Table[i]| <= 18
    {
      if i == 8 { assert Table[i] == "www.ietf.org"; }
      else if i == 9 { assert Table[i] == "www.viagenie.ca"; }
      else if i == 10 { assert Table[i] == "www.facebook.com"; }
      else { assert Table[i] == "www.gmail.com"; }
    }
  }

  lemma HostnamesIn12To16()
    ensures forall i :: 12 <= i < 17 ==> IsHostname(Table[i]) && |Table[i]| <= 18
  {
    forall i | 12 <= i < 17
      ensures IsHostname(Table[i]) && |Table[i]| <= 18
    {
      if i == 12 { assert Table[i] == "cloudflare.com"; }
      else if i == 13 { assert Table[i] == "ipv6-test.com"; }
      else if i == 14 { assert Table[i] == "tum.de"; }
      else if i == 15 { assert Table[i] == "www.itu.int"; }
      else { assert Table[i] == "ipv6now.com.au"; }
    }
  }

  lemma HostnamesIn17To21()
    ensures forall i :: 17 <= i < 22 ==> IsHostname(Table[i]) && |Table[i]| <= 18
  {
    forall i | 17 <= i < 22
      ensures IsHostname(Table[i]) && |Table[i]| <= 18
    {
      if i == 17 { assert Table[i] == "www.nanog.org"; }
      else if i == 18 { assert Table[i] == "www.netflix.com"; }
      else if i == 19 { assert Table[i] == "www.instagram.com"; }
      else if i == 20 { assert Table[i] == "www.wikipedia.org"; }
      else { assert Table[i] == "www.yandex.ru"; }
    }
  }
}
