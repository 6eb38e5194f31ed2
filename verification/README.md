# primes and most-ip, modelled in Dafny

This project models the two algorithms of a small Java repository and proves
properties of them.

- **primes** is a Sieve of Eratosthenes. It takes an integer `max` and returns
  every prime up to `max`, in increasing order. It works on a boolean array of
  `max + 1` cells, where `true` marks a value known to be composite. When it
  meets an unmarked candidate, it records the candidate as prime and marks
  every multiple from twice the candidate upward.
- **most-ip** ranks the IPv4 addresses that head the lines of a log file. The
  program does the following:
  - It matches each line against `^(\d{1,3}\.){3}\d{1,3}\h`.
  - It counts every matched prefix in a hash table. The key is the whole
    match, so it includes its trailing whitespace character.
  - It adds the table entries to a `TreeSet`, ordered by descending count and
    then by ascending string order.
  - It prints `"%d %s\n"` for every entry whose count is among the `n` largest
    distinct counts. Ties are never split.

Layout, one module per file:

| file | module | models |
|---|---|---|
| `primes.dfy` | `Primes` | `primes(int max)` and its inner marking loop |
| `wrappers.dfy` | `Wrappers` | `Option`, used for "no match" and "not parseable" |
| `line_match.dfy` | `LineMatch` | the address pattern, as a hand-written scanner next to a declarative description of the pattern |
| `count_table.dfy` | `CountTable` | the counting loop of `process`, with the line sequence standing in for the reader |
| `ranking.dfy` | `Ranking` | `String.compareTo`, `IpCount.compareTo`, the `TreeSet` as a strictly sorted sequence, and filling it from the table |
| `report.dfy` | `Report` | `%d` formatting, `dumpTop`, and a whole run from log lines to printed lines |
| `ranker_examples.dfy` | `RankerExamples` | two concrete logs whose printed output follows from the contract of a whole run alone |

Modelling choices:

- Integers are unbounded.
- The log is a `seq<string>` of lines.
- The printed output is a `seq<string>` of the lines `dumpTop` would print.
- `\d` is an ASCII digit. The pattern is compiled without Unicode character
  classes.
- `\h` is Java's horizontal-whitespace class: space, tab, U+00A0, U+1680,
  U+180E, U+2000–U+200A, U+202F, U+205F and U+3000.
- Java iterates the `HashMap`'s keys in an unspecified order. `Ranking.Rank`
  therefore takes the keys in an arbitrary order. `Ranking.RankingDeterministic`
  shows that the resulting ranking does not depend on that order.

- The stored key is the whole match, `matcher.group(0)`, including the
  whitespace character after the address. A printed line is therefore
  `count`, a space, the address, that whitespace character, and a newline.
- `n` is the count argument of `dumpTop`.

## Model

| member | source | states |
|---|---|---|
| `Primes.Sieve` | primes/Primes.java:34-59 | The result is empty when max <= 1. It is strictly increasing. A value appears in it exactly when it is a prime between 2 and max. This covers both soundness and completeness. |
| `Primes.MarkMultiples` | primes/Primes.java:53-55 | After the inner loop, a cell is marked exactly when it was marked before or it is a multiple of the candidate that is at least twice the candidate. No other cell changes. |
| `Primes.CandidateIsPrimeIff` | primes/Primes.java:46-51 | Suppose the found list holds exactly the primes below the candidate. Then the candidate is prime exactly when no found value smaller than it divides it. So the unmarked test decides primality. |
| `Primes.ExtendFound` | primes/Primes.java:45-55 | Adding a new prime to the found list adds to the cells that have a found divisor exactly the multiples of that prime that are at least twice it. So marking the multiples keeps the outer-loop invariant: a cell is marked exactly when a smaller found prime divides it. |
| `LineMatch.Group` | most-ip/MostIp.java:46 | A digit group followed by its separator spans two to four characters of the line. |
| `LineMatch.MatchLength` | most-ip/MostIp.java:46 | A match is 8 to 16 characters long and lies within the line. |
| `LineMatch.KeyOf` | most-ip/MostIp.java:98-102 | The extracted key is a prefix of the line, 8 to 16 characters long. It ends in a horizontal-whitespace character. |
| `LineMatch.MatchLengthSound` | most-ip/MostIp.java:46 | Every match the scanner reports has the pattern's shape: four groups of one to three digits, separated by dots and followed by one horizontal-whitespace character. The reported length covers exactly that shape. |
| `LineMatch.MatchLengthComplete` | most-ip/MostIp.java:46 | Every way the line can take the pattern's shape is found by the scanner, with the same length. So the match is unique. |
| `LineMatch.KeyOfMatchesPattern` | most-ip/MostIp.java:98-102 | A line yields a key exactly when the pattern matches at its start. The key is the whole matched prefix. |
| `LineMatch.KeyKeepsWhitespace` | most-ip/MostIp.java:102 | "10.0.0.1 GET /" yields the key "10.0.0.1 " with its space. That key differs from the key of the same address followed by a tab. |
| `LineMatch.KeyKeepsTab` | most-ip/MostIp.java:102 | "10.0.0.1\tGET /" yields the key "10.0.0.1\t". |
| `LineMatch.KeyNoRangeCheck` | most-ip/MostIp.java:43-46 | The groups are not range-checked: "999.999.999.999 x" is accepted. |
| `LineMatch.KeyRejectsMalformed` | most-ip/MostIp.java:46 | A line without leading digits, and a line whose first group has four digits, yield no key. |
| `LineMatch.KeyRejectsThreeGroups` | most-ip/MostIp.java:46 | A line with only three groups yields no key. |
| `LineMatch.KeyRejectsUnterminated` | most-ip/MostIp.java:46 | An address that is not followed by a whitespace character yields no key. |
| `CountTable.Record` | most-ip/MostIp.java:98-107 | A non-matching line leaves the table unchanged. A matching line raises its key's count by one, or enters the key with count 1. Every other key keeps its count. |
| `CountTable.Tally` | most-ip/MostIp.java:88-108 | After the scan every count is at least 1. Every key in the table is the key of some line. |
| `CountTable.TallyCounts` | most-ip/MostIp.java:93-108 | A key is in the table exactly when some line has it as its key. Its count is the number of such lines. |
| `CountTable.RecordSum` | most-ip/MostIp.java:104-107 | One loop iteration raises the sum of all counts by one exactly when the line matches. Otherwise the sum stays the same. |
| `CountTable.TallySum` | most-ip/MostIp.java:93-108 | After the scan the counts add up to the number of matching lines. |
| `Ranking.CompareStringsSpec` | most-ip/MostIp.java:39 | String comparison is zero exactly on equal strings. It changes sign when its arguments are swapped. It is negative exactly when the first string is lexicographically smaller, either at the first differing character or by being a proper prefix. |
| `Ranking.CompareStringsTransitive` | most-ip/MostIp.java:39 | String comparison is transitive. |
| `Ranking.CompareSpec` | most-ip/MostIp.java:32-40 | compareTo returns 0 only when both count and address are equal. It is antisymmetric. It orders a before b exactly when a has the larger count, or the same count and the lexicographically smaller address. |
| `Ranking.BeforeTransitive` | most-ip/MostIp.java:32-40 | The comparator's strict order is transitive. |
| `Ranking.BeforeAsymmetric` | most-ip/MostIp.java:32-40 | The comparator's strict order is irreflexive and asymmetric. With transitivity and CompareSpec, it is a strict total order. |
| `Ranking.Insert` | most-ip/MostIp.java:111-112 | TreeSet.add keeps the sequence sorted. Afterwards the set holds exactly the old entries plus the new one. Adding an entry already present changes nothing. Adding a new entry grows the sequence by one. |
| `Ranking.Rank` | most-ip/MostIp.java:110-112 | Filling the TreeSet from the table gives a sorted sequence with exactly one entry per table key, carrying that key's count. Its length equals the number of keys. |
| `Ranking.RankingDeterministic` | most-ip/MostIp.java:110-112 | Two sorted sequences holding the entries of the same table are equal. So the output does not depend on the hash table's iteration order, and running twice on the same input gives the same output. |
| `Report.Decimal` | most-ip/MostIp.java:126 | `%d` of a count is a non-empty string of decimal digits without a leading zero. |
| `Report.DecimalRoundTrip` | most-ip/MostIp.java:126 | Reading back the printed count gives the count. |
| `Report.FormatLineRoundTrip` | most-ip/MostIp.java:126 | Each printed line is the count, a space, the key, and a newline. Splitting it at its first space and before its final newline gives back the entry. |
| `Report.SortedNonIncreasing` | most-ip/MostIp.java:32-36 | In the TreeSet's order, counts never increase. |
| `Report.TierIndexIsRank` | most-ip/MostIp.java:117-124 | On entries ordered by count, the number of count changes before an entry equals the number of distinct counts above its own. This is the `pos` counter of dumpTop, minus one. |
| `Report.TopTierCut` | most-ip/MostIp.java:120-123 | Suppose dumpTop stops at the first entry whose tier number exceeds n. Then the entries before that point are exactly those with fewer than n distinct counts above their own. |
| `Report.DumpTop` | most-ip/MostIp.java:116-127 | The printed lines are the formatted entries of a prefix of the sorted sequence, in order. An entry is printed exactly when fewer than n distinct counts lie above its count, so tied entries are never split. Nothing is printed when n <= 0 or when there are no entries. |
| `Report.MostIp` | most-ip/MostIp.java:88-127 | A whole run returns the TreeSet ranking of the table built from the lines, with one entry per key carrying its count. The printed lines are the formatted first entries of that ranking, in order. An entry is printed exactly when fewer than n distinct counts of the table lie above its count. |
| `Report.ReportOfDeterministic` | most-ip/MostIp.java:110-127 | Two outcomes that both rank and print the same table with the same n are equal, both the ranking and the printed lines. In particular they print the same number of lines. |
| `Report.ReportDeterministic` | most-ip/MostIp.java:110-127 | Any two outcomes that satisfy the whole-run contract for the same lines and n are equal, both the ranking and the printed lines. So the HashMap's iteration order never shows in the output. |
| `RankerExamples.LogTally` | most-ip/MostIp.java:93-108 | In the log "10.0.0.1 GET /", "10.0.0.1 POST /", "10.0.0.2 GET /", "not-an-ip x", the key "10.0.0.1 " is counted twice and "10.0.0.2 " once. The last line is skipped. |
| `RankerExamples.TiedLogTally` | most-ip/MostIp.java:93-108 | Two lines with different addresses give each key the count 1. |
| `RankerExamples.TiedOrder` | most-ip/MostIp.java:32-40 | With equal counts, "10.0.0.1 " sorts before "10.0.0.2 ". |
| `RankerExamples.LogTopOne` | most-ip/MostIp.java:88-127 | On that log with n = 1, the only possible ranking is (10.0.0.1, 2), (10.0.0.2, 1). The only printed line is "2 10.0.0.1 " followed by a newline. |
| `RankerExamples.TiedTopOne` | most-ip/MostIp.java:115-127 | When both addresses have count 1, n = 1 prints both of them, because ties in the top tier are never split. The smaller address is printed first. |

## Left out

- `http-ping/HttpPing.java` is not part of this model. It is a socket server that reports the clock and the caller's address, and it holds no algorithm.
- The `main` and `help` methods of both programs are left out: argument decoding with `Integer.decode`, usage text and exception reporting. `max` and `n` are parameters instead.
- `MostIp.run` is left out: opening, reading and closing the file. The log is given as its sequence of lines. An I/O error while opening the file (line 79) or reading a line (line 94) propagates out of `run` to `main`, which prints it and returns before `dumpTop`, so nothing is printed and the partly built table is discarded. The model covers runs in which every line is read.
- Printing to a `PrintStream` is left out. The printed lines are returned as a sequence of strings.
- `Report.Decimal`: `printf` formats `%d` with the default locale, whose zero digit sets which digits are printed. The model assumes that locale's zero digit is '0', so counts are printed in ASCII digits. Locales such as th_TH_TH or Arabic and Persian ones print other digits, and the model does not cover them.
- The Java regular-expression engine is replaced by a hand-written scanner. `LineMatch.MatchLengthSound` and `LineMatch.MatchLengthComplete` prove that the scanner agrees with the pattern's shape.
- The internals of `HashMap` and `TreeSet` are left out. They are modelled as a `map<string, nat>` and a strictly sorted sequence.
- `Primes.Sieve`: Java's 32-bit `int` arithmetic is not modelled; the model's integers are unbounded. In the source, `max + 1` overflows at `Integer.MAX_VALUE`. `composite += candidate` wraps to a negative index as soon as `max` lies within one candidate of `Integer.MAX_VALUE`: with `max = 2147483638`, candidate 13 reaches the composite 2147483637, and adding 13 wraps it to -2147483646, so the write at line 55 throws `ArrayIndexOutOfBoundsException`. `candidate * 2` also wraps once a candidate exceeds 2^30. The model does not reproduce these exceptions; it states the result the sieve computes for every `max`.
- `CountTable.Record`: counts are unbounded. In the source, `count + 1` wraps to `Integer.MIN_VALUE` once one key has headed 2^31 - 1 lines. The lines are streamed, not stored, so no memory bound prevents this. A wrapped count would make `other.count - count` in the comparator overflow, and it could equal the `lastCount = -1` sentinel of `dumpTop`. The model covers only logs in which no key heads 2^31 - 1 or more lines.
- Strings are sequences of Unicode scalar values, while Java compares UTF-16 code units. All keys are digits, dots and one whitespace character from the Basic Multilingual Plane, so the two orders agree on every key.
