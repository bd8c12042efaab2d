/** The address-list loading loop of the main form's constructor: each line
    of the address file is kept, trimmed, when its trimmed String.Length is 42 and
    no stored address equals it ignoring case. */
module AddressLoader {
  import opened Strings
  import opened AddressRecord

  const AddressLength := 42

  /** The loop's guard: a line is considered only when it is non-empty and
      its trimmed text has the length of an address, counted in UTF-16 code
      units as String.Length counts. */
  predicate Acceptable(line: string) {
    |line| != 0 && Utf16Length(Trim(line)) == AddressLength
  }

  /** Some stored address equals `key` ignoring case. */
  predicate Holds(entries: seq<Address>, key: string) {
    exists k | 0 <= k < |entries| :: EqualsIgnoreCase(entries[k].addr, key)
  }

  /** The entry `Addresses.Add(new Address(key))` stores: a fresh address
      with the binding list's change handler attached. */
  function Listed(key: string): (a: Address)
    ensures a.addr == key && a.subscribed
    ensures !a.auditPassed && a.balEth == 0.0 && a.balTnt == 0.0 && a.lastUpdated == Never
  {
    Subscribe(NewAddress(key).address)
  }

  /** One iteration of the loop. Only a line that passes the guard can grow
      the list, and then by its trimmed text, freshly listed. */
  function AddLine(entries: seq<Address>, line: string): (r: seq<Address>)
    ensures r == entries || (Acceptable(line) && r == entries + [Listed(Trim(line))])
  {
    if !Acceptable(line) then entries
    else if Holds(entries, Trim(line)) then entries
    else entries + [Listed(Trim(line))]
  }

  /** A list whose addresses differ ignoring case keeps that property
      through one iteration. */
  lemma AddLineKeepsDistinct(entries: seq<Address>, line: string)
    requires forall j, k | 0 <= j < k < |entries| :: !EqualsIgnoreCase(entries[j].addr, entries[k].addr)
    ensures var r := AddLine(entries, line);
            forall j, k | 0 <= j < k < |r| :: !EqualsIgnoreCase(r[j].addr, r[k].addr)
  {
    if Acceptable(line) && !Holds(entries, Trim(line)) {
      assert forall j | 0 <= j < |entries| :: !EqualsIgnoreCase(entries[j].addr, Trim(line));
    }
  }

  /** After one iteration, an address is held ignoring case exactly when it
      was held before or the line passes the guard and trims to it. */
  lemma AddLineHolds(entries: seq<Address>, line: string, key: string)
    ensures Holds(AddLine(entries, line), key) <==> Holds(entries, key) || (Acceptable(line) && EqualsIgnoreCase(Trim(line), key))
  {
    if Acceptable(line) && !Holds(entries, Trim(line)) {
      HoldsAppend(entries, Listed(Trim(line)), key);
    } else if Acceptable(line) && EqualsIgnoreCase(Trim(line), key) {
      var k :| 0 <= k < |entries| && EqualsIgnoreCase(entries[k].addr, Trim(line));
      EqualsIgnoreCaseTransitive(entries[k].addr, Trim(line), key);
    }
  }

  /** The whole loop over the file's lines, in order. Every stored address
      is 42 UTF-16 code units long and otherwise fresh, and no two stored addresses
      are equal ignoring case. */
  function LoadAddresses(lines: seq<string>): (entries: seq<Address>)
    ensures |entries| <= |lines|
    ensures forall k | 0 <= k < |entries| ::
              Utf16Length(entries[k].addr) == AddressLength && entries[k] == Listed(entries[k].addr)
    ensures forall j, k | 0 <= j < k < |entries| :: !EqualsIgnoreCase(entries[j].addr, entries[k].addr)
    decreases |lines|
  {
    if |lines| == 0 then []
    else
      var before := LoadAddresses(lines[..|lines| - 1]);
      AddLineKeepsDistinct(before, lines[|lines| - 1]);
      AddLine(before, lines[|lines| - 1])
  }

  /** The stored address strings, in list order. */
  function Addrs(entries: seq<Address>): seq<string> {
    seq(|entries|, k requires 0 <= k < |entries| => entries[k].addr)
  }

  /** Some acceptable line among `lines` trims to `key`, ignoring case. */
  predicate Seen(lines: seq<string>, key: string) {
    exists j | 0 <= j < |lines| :: Acceptable(lines[j]) && EqualsIgnoreCase(Trim(lines[j]), key)
  }

  /** Line `i` is acceptable and no earlier acceptable line matches it
      ignoring case. */
  predicate FirstOccurrence(lines: seq<string>, i: int)
    requires 0 <= i < |lines|
  {
    Acceptable(lines[i]) && !Seen(lines[..i], Trim(lines[i]))
  }

  /** Reference definition: the trimmed text of every first occurrence, in
      file order. */
  function FirstOccurrences(lines: seq<string>): seq<string>
    decreases |lines|
  {
    if |lines| == 0 then []
    else
      FirstOccurrences(lines[..|lines| - 1])
      + (if FirstOccurrence(lines, |lines| - 1) then [Trim(lines[|lines| - 1])] else [])
  }

  lemma HoldsAppend(entries: seq<Address>, x: Address, key: string)
    ensures Holds(entries + [x], key) <==> Holds(entries, key) || EqualsIgnoreCase(x.addr, key)
  {
    var e := entries + [x];
    if Holds(entries, key) {
      var k :| 0 <= k < |entries| && EqualsIgnoreCase(entries[k].addr, key);
      assert e[k] == entries[k];
    }
    if EqualsIgnoreCase(x.addr, key) {
      assert e[|entries|] == x;
    }
    if Holds(e, key) && !EqualsIgnoreCase(x.addr, key) {
      var k :| 0 <= k < |e| && EqualsIgnoreCase(e[k].addr, key);
      assert k < |entries| && e[k] == entries[k];
    }
  }

  lemma SeenAppend(lines: seq<string>, key: string)
    requires |lines| > 0
    ensures Seen(lines, key) <==>
            Seen(lines[..|lines| - 1], key) || (Acceptable(lines[|lines| - 1]) && EqualsIgnoreCase(Trim(lines[|lines| - 1]), key))
  {
    var n := |lines| - 1;
    var prefix := lines[..n];
    if Seen(prefix, key) {
      var j :| 0 <= j < n && Acceptable(prefix[j]) && EqualsIgnoreCase(Trim(prefix[j]), key);
      assert prefix[j] == lines[j];
    }
    if Seen(lines, key) {
      var j :| 0 <= j < |lines| && Acceptable(lines[j]) && EqualsIgnoreCase(Trim(lines[j]), key);
      if j < n {
        assert prefix[j] == lines[j];
      }
    }
  }

  /** An address is held after loading (ignoring case) exactly when some
      acceptable line of the file carries it. */
  lemma {:induction false} HeldIffSeen(lines: seq<string>, key: string)
    ensures Holds(LoadAddresses(lines), key) <==> Seen(lines, key)
    decreases |lines|
  {
    if |lines| > 0 {
      var n := |lines| - 1;
      var prefix := lines[..n];
      var line := lines[n];
      var before := LoadAddresses(prefix);
      HeldIffSeen(prefix, key);
      SeenAppend(lines, key);
      if Acceptable(line) && !Holds(before, Trim(line)) {
        HoldsAppend(before, Listed(Trim(line)), key);
      } else if Acceptable(line) && EqualsIgnoreCase(Trim(line), key) {
        var k :| 0 <= k < |before| && EqualsIgnoreCase(before[k].addr, Trim(line));
        EqualsIgnoreCaseTransitive(before[k].addr, Trim(line), key);
      }
    }
  }

  /** Loading keeps exactly the first occurrence of every address, trimmed,
      in file order. */
  lemma {:induction false} LoadKeepsFirstOccurrences(lines: seq<string>)
    ensures Addrs(LoadAddresses(lines)) == FirstOccurrences(lines)
    decreases |lines|
  {
    if |lines| > 0 {
      var n := |lines| - 1;
      var prefix := lines[..n];
      var line := lines[n];
      var before := LoadAddresses(prefix);
      LoadKeepsFirstOccurrences(prefix);
      HeldIffSeen(prefix, Trim(line));
      assert lines[..n] == prefix;
      var after := LoadAddresses(lines);
      assert after == AddLine(before, line);
      if FirstOccurrence(lines, n) {
        assert Acceptable(line) && !Holds(before, Trim(line));
        assert after == before + [Listed(Trim(line))];
        assert Addrs(after) == Addrs(before) + [Trim(line)];
      } else {
        assert after == before;
      }
    }
  }

  /** String.Length counts a character above U+FFFF as two code units: a
      42-unit address line may hold 41 characters, and a 42-character line
      holding such a character is too long. */
  lemma AstralCharacterCountsTwice()
    ensures Acceptable("0x" + seq(38, _ => 'a') + "\U{1F600}")
    ensures !Acceptable("0x" + seq(39, _ => 'a') + "\U{1F600}")
  {
    var short := "0x" + seq(38, _ => 'a');
    var long := "0x" + seq(39, _ => 'a');
    Utf16LengthCountsCharsOnlyInBmp(short);
    Utf16LengthCountsCharsOnlyInBmp(long);
    assert (short + "\U{1F600}")[..|short|] == short;
    assert (long + "\U{1F600}")[..|long|] == long;
  }

  /** A line is stored only when it passes the guard, and then as its
      trimmed text. */
  lemma StoredAddressesComeFromAcceptableLines(lines: seq<string>, k: int)
    requires 0 <= k < |LoadAddresses(lines)|
    ensures exists i | 0 <= i < |lines| :: Acceptable(lines[i]) && Trim(lines[i]) == LoadAddresses(lines)[k].addr
    decreases |lines|
  {
    var n := |lines| - 1;
    var before := LoadAddresses(lines[..n]);
    if k < |before| {
      StoredAddressesComeFromAcceptableLines(lines[..n], k);
      var i :| 0 <= i < n && Acceptable(lines[..n][i]) && Trim(lines[..n][i]) == before[k].addr;
      assert lines[..n][i] == lines[i];
    } else {
      assert Acceptable(lines[n]) && Trim(lines[n]) == LoadAddresses(lines)[k].addr;
    }
  }

}
