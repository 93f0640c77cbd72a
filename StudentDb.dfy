/** 2-StudentDB/starter/sdbsc.c: a file of fixed-size student records in
    which the record of student `id` lives at slot `id`, and a slot whose id
    field is zero is empty. The file is a sequence of records plus the byte
    count of a trailing partial record. */
module StudentDb {
  import opened Limits

  // Constants of db.h, which is not part of this model. Id 0 marks an
  // empty slot, so the smallest student id is positive.
  const MIN_STD_ID: Pos
  const MAX_STD_ID: int
  const MIN_STD_GPA: int
  const MAX_STD_GPA: int
  /** sizeof of the fname and lname fields. */
  const FNAME_SZ: Pos
  const LNAME_SZ: Pos
  /** sizeof(student_t). */
  const STUDENT_RECORD_SIZE: Pos

  datatype Student = Student(id: int, fname: string, lname: string, gpa: int)

  const EMPTY_STUDENT_RECORD := Student(0, [], [], 0)

  datatype Status = NoError | ErrDbFile | ErrDbOp | SrchNotFound | ExitFailArgs

  /** What get_student reports: found, not found, or an lseek failure. */
  datatype Lookup = Found(student: Student) | NotFound | FileError

  function ValidateRange(id: int, gpa: int): Status
  {
    if id < MIN_STD_ID || id > MAX_STD_ID then ExitFailArgs
    else if gpa < MIN_STD_GPA || gpa > MAX_STD_GPA then ExitFailArgs
    else NoError
  }

  /** get_student on the record sequence: a negative offset fails lseek, a
      slot that is not a whole record or holds an empty record is not
      found. */
  function LookupAt(records: seq<Student>, id: int): Lookup
  {
    if id < 0 then FileError
    else if id >= |records| || records[id].id == 0 then NotFound
    else Found(records[id])
  }

  function Empties(n: nat): (r: seq<Student>)
    ensures |r| == n && forall k :: 0 <= k < n ==> r[k] == EMPTY_STUDENT_RECORD
  {
    if n == 0 then [] else Empties(n - 1) + [EMPTY_STUDENT_RECORD]
  }

  /** A record written at slot `id`: past the end of the file the gap reads
      back as empty records. */
  function Put(records: seq<Student>, id: nat, r: Student): seq<Student>
  {
    if id < |records| then records[id := r]
    else records + Empties(id - |records|) + [r]
  }

  /** strncpy into a field of `size` bytes, leaving room for the NUL. */
  function Truncate(s: string, size: Pos): (r: string)
    ensures |r| < size && r <= s
    ensures |s| < size ==> r == s
  {
    if |s| < size then s else s[..size - 1]
  }

  /** The non-empty records, in file order: what compress_db copies. */
  function NonEmpty(records: seq<Student>): seq<Student>
  {
    if records == [] then []
    else
      var last := records[|records| - 1];
      NonEmpty(records[..|records| - 1]) + (if last.id != 0 then [last] else [])
  }

  // ---------------------------------------------------------------------
  // Properties

  lemma ValidateRangeIff(id: int, gpa: int)
    ensures ValidateRange(id, gpa) == NoError <==>
            MIN_STD_ID <= id <= MAX_STD_ID && MIN_STD_GPA <= gpa <= MAX_STD_GPA
    ensures ValidateRange(id, gpa) in {NoError, ExitFailArgs}
  {
  }

  /** A validated id is never negative, so the lookup in add_student cannot
      fail lseek. */
  lemma ValidIdSeeks(records: seq<Student>, id: int, gpa: int)
    requires ValidateRange(id, gpa) == NoError
    ensures LookupAt(records, id) != FileError
  {
  }

  /** Round trip: a record written at its slot is found there. */
  lemma PutThenLookup(records: seq<Student>, id: nat, r: Student)
    requires r.id != 0
    ensures LookupAt(Put(records, id, r), id) == Found(r)
  {
  }

  /** Writing one slot leaves every other slot's lookup as it was. */
  lemma PutKeepsOthers(records: seq<Student>, id: nat, r: Student, other: int)
    requires other != id
    ensures LookupAt(Put(records, id, r), other) == LookupAt(records, other)
  {
    if id >= |records| && |records| <= other < id {
      assert Put(records, id, r)[other] == EMPTY_STUDENT_RECORD;
    }
  }

  lemma {:induction false} NonEmptyAppend(a: seq<Student>, b: seq<Student>)
    ensures NonEmpty(a + b) == NonEmpty(a) + NonEmpty(b)
    decreases |b|
  {
    if b == [] {
      assert a + b == a;
    } else {
      var b' := b[..|b| - 1];
      assert (a + b)[..|a + b| - 1] == a + b';
      NonEmptyAppend(a, b');
    }
  }

  lemma {:induction false} NonEmptyOfEmpties(n: nat)
    ensures NonEmpty(Empties(n)) == []
  {
    if n > 0 {
      assert Empties(n)[..n - 1] == Empties(n - 1);
      NonEmptyOfEmpties(n - 1);
    }
  }

  lemma NonEmptyOne(r: Student)
    ensures NonEmpty([r]) == if r.id != 0 then [r] else []
  {
    assert [r][..0] == [];
  }

  /** Overwriting one slot changes the count by what leaves and what comes. */
  lemma NonEmptyUpdate(records: seq<Student>, i: nat, r: Student)
    requires i < |records|
    ensures |NonEmpty(records[i := r])| ==
            |NonEmpty(records)| - (if records[i].id != 0 then 1 else 0) + (if r.id != 0 then 1 else 0)
  {
    var pre, post := records[..i], records[i + 1..];
    assert records == pre + [records[i]] + post;
    assert records[i := r] == pre + [r] + post;
    NonEmptyAppend(pre + [records[i]], post);
    NonEmptyAppend(pre, [records[i]]);
    NonEmptyAppend(pre + [r], post);
    NonEmptyAppend(pre, [r]);
    NonEmptyOne(records[i]);
    NonEmptyOne(r);
  }

  /** A successful add_student adds one to count_db_records. */
  lemma PutCount(records: seq<Student>, id: nat, r: Student)
    requires r.id != 0 && !LookupAt(records, id).Found?
    ensures |NonEmpty(Put(records, id, r))| == |NonEmpty(records)| + 1
  {
    if id < |records| {
      NonEmptyUpdate(records, id, r);
    } else {
      NonEmptyAppend(records + Empties(id - |records|), [r]);
      NonEmptyAppend(records, Empties(id - |records|));
      NonEmptyOfEmpties(id - |records|);
      NonEmptyOne(r);
    }
  }

  /** A successful del_student takes one off, and the record is gone. */
  lemma DeleteCount(records: seq<Student>, id: nat)
    requires LookupAt(records, id).Found?
    ensures |NonEmpty(records[id := EMPTY_STUDENT_RECORD])| == |NonEmpty(records)| - 1
    ensures LookupAt(records[id := EMPTY_STUDENT_RECORD], id) == NotFound
  {
    NonEmptyUpdate(records, id, EMPTY_STUDENT_RECORD);
  }

  /** Compressing keeps exactly the non-empty records: every one of them,
      and nothing else. */
  lemma {:induction false} NonEmptyElements(records: seq<Student>)
    ensures forall r :: r in NonEmpty(records) <==> r in records && r.id != 0
    ensures |NonEmpty(records)| <= |records|
    decreases |records|
  {
    if records != [] {
      var init := records[..|records| - 1];
      NonEmptyElements(init);
      assert records == init + [records[|records| - 1]];
    }
  }

  /** Compressing twice is compressing once. */
  lemma NonEmptyIdempotent(records: seq<Student>)
    ensures NonEmpty(NonEmpty(records)) == NonEmpty(records)
  {
    NonEmptyElements(records);
    NonEmptyFixed(NonEmpty(records));
  }

  lemma {:induction false} NonEmptyFixed(records: seq<Student>)
    requires forall k :: 0 <= k < |records| ==> records[k].id != 0
    ensures NonEmpty(records) == records
    decreases |records|
  {
    if records != [] {
      NonEmptyFixed(records[..|records| - 1]);
    }
  }

  /** compress_db renumbers slots: a record is no longer found under its
      own id once the empty slots before it are squeezed out. */
  lemma CompressMovesRecords()
    ensures var s := Student(2, "a", "b", 0);
            var rs := [EMPTY_STUDENT_RECORD, EMPTY_STUDENT_RECORD, s];
            LookupAt(rs, 2) == Found(s) && NonEmpty(rs) == [s] && LookupAt(NonEmpty(rs), 2) == NotFound
  {
    var s := Student(2, "a", "b", 0);
    var rs := [EMPTY_STUDENT_RECORD, EMPTY_STUDENT_RECORD, s];
    assert rs == Empties(2) + [s];
    NonEmptyAppend(Empties(2), [s]);
    NonEmptyOfEmpties(2);
    NonEmptyOne(s);
  }

  /** A file of `n` whole records and `t` further bytes, fewer than a
      record, holds `n` records by division and `t` bytes by remainder. */
  lemma DivModOfRecords(n: nat, t: nat)
    requires t < STUDENT_RECORD_SIZE
    ensures (n * STUDENT_RECORD_SIZE + t) / STUDENT_RECORD_SIZE == n
    ensures (n * STUDENT_RECORD_SIZE + t) % STUDENT_RECORD_SIZE == t
  {
    var q, r := (n * STUDENT_RECORD_SIZE + t) / STUDENT_RECORD_SIZE, (n * STUDENT_RECORD_SIZE + t) % STUDENT_RECORD_SIZE;
    var k := q - n;
    assert k * STUDENT_RECORD_SIZE == t - r;
    if k >= 1 {
      RecordsAtLeastOne(k);
    } else if k <= -1 {
      RecordsAtLeastOne(-k);
    }
  }

  /** One or more records take at least one record's bytes. */
  lemma {:induction false} RecordsAtLeastOne(k: int)
    requires k >= 1
    ensures k * STUDENT_RECORD_SIZE >= STUDENT_RECORD_SIZE
    decreases k
  {
    if k > 1 {
      RecordsAtLeastOne(k - 1);
      assert k * STUDENT_RECORD_SIZE == (k - 1) * STUDENT_RECORD_SIZE + STUDENT_RECORD_SIZE;
    }
  }

  // ---------------------------------------------------------------------
  // The database file

  class Db {
    var records: seq<Student>
    /** Bytes of a trailing record that is not whole. */
    var tail: nat

    ghost predicate Valid()
      reads this
    {
      tail < STUDENT_RECORD_SIZE
    }

    /** The size of the file in bytes. */
    function FileSize(): nat
      reads this
    {
      |records| * STUDENT_RECORD_SIZE + tail
    }

    /** The file as the read loops see it: `FileSize / sizeof(student_t)`
        reads of a whole record, then one short read of the remaining
        bytes, which is zero exactly when the file ends on a record. */
    lemma ReadsOfFile()
      requires Valid()
      ensures |records| == FileSize() / STUDENT_RECORD_SIZE
      ensures tail == FileSize() % STUDENT_RECORD_SIZE
    {
      DivModOfRecords(|records|, tail);
    }

    /** open_db on an existing file. */
    constructor (records0: seq<Student>, tail0: nat)
      requires tail0 < STUDENT_RECORD_SIZE
      ensures Valid() && records == records0 && tail == tail0
    {
      records := records0;
      tail := tail0;
    }

    /** open_db with should_truncate: O_TRUNC empties the file. */
    method TruncateDb()
      modifies this
      ensures Valid() && records == [] && tail == 0
    {
      records := [];
      tail := 0;
    }

    method GetStudent(id: int) returns (rc: Status, s: Student)
      ensures rc == NoError <==> 0 <= id < |records| && records[id].id != 0
      ensures rc == NoError ==> s == records[id]
      ensures rc == ErrDbFile <==> id < 0
      ensures rc == SrchNotFound ==> s.id == 0
      ensures rc in {NoError, ErrDbFile, SrchNotFound}
    {
      if id < 0 {
        return ErrDbFile, EMPTY_STUDENT_RECORD;
      }
      if id >= |records| {
        // read returns fewer than sizeof(student_t) bytes
        return SrchNotFound, EMPTY_STUDENT_RECORD;
      }
      s := records[id];
      if s.id == 0 {
        return SrchNotFound, s;
      }
      rc := NoError;
    }

    method AddStudent(id: int, fname: string, lname: string, gpa: int) returns (rc: Status)
      requires Valid()
      modifies this
      ensures Valid()
      ensures rc == NoError <==> ValidateRange(id, gpa) == NoError && !LookupAt(old(records), id).Found?
      ensures rc != NoError ==> rc == ErrDbOp && records == old(records) && tail == old(tail)
      ensures rc == NoError ==>
                records == Put(old(records), id, Student(id, Truncate(fname, FNAME_SZ), Truncate(lname, LNAME_SZ), gpa)) &&
                tail == (if id < |old(records)| then old(tail) else 0)
    {
      if ValidateRange(id, gpa) != NoError {
        return ErrDbOp;
      }
      var got, student := GetStudent(id);
      if got == NoError {
        return ErrDbOp;
      }
      // got is SrchNotFound: a validated id is positive (ValidIdSeeks)
      var newStudent := Student(id, Truncate(fname, FNAME_SZ), Truncate(lname, LNAME_SZ), gpa);
      if id >= |records| {
        tail := 0;
      }
      records := Put(records, id, newStudent);
      rc := NoError;
    }

    method DelStudent(id: int) returns (rc: Status)
      requires Valid()
      modifies this
      ensures Valid() && tail == old(tail)
      ensures rc == NoError <==> LookupAt(old(records), id).Found?
      ensures rc != NoError ==> rc == ErrDbOp && records == old(records)
      ensures rc == NoError ==> records == old(records)[id := EMPTY_STUDENT_RECORD]
    {
      var got, student := GetStudent(id);
      if got != NoError {
        return ErrDbOp;
      }
      records := records[id := EMPTY_STUDENT_RECORD];
      rc := NoError;
    }

    /** The read loop: whole records are read until the partial tail or
        the end, counting those with a non-zero id. */
    method CountDbRecords() returns (count: nat)
      ensures count == |NonEmpty(records)|
    {
      count := 0;
      var i := 0;
      while i < |records|
        invariant i <= |records| && count == |NonEmpty(records[..i])|
      {
        assert records[..i + 1][..i] == records[..i];
        if records[i].id != 0 {
          count := count + 1;
        }
        i := i + 1;
      }
      assert records[..i] == records;
    }

    /** Copies the non-empty records, in order, to a new file that replaces
        the old one; a partial record at the end is a read error and leaves
        the database as it was. */
    method CompressDb() returns (rc: Status)
      requires Valid()
      modifies this
      ensures Valid()
      ensures rc == NoError <==> old(tail) == 0
      ensures rc == NoError <==> old(FileSize()) % STUDENT_RECORD_SIZE == 0
      ensures rc != NoError ==> rc == ErrDbFile && records == old(records) && tail == old(tail)
      ensures rc == NoError ==> records == NonEmpty(old(records)) && tail == 0
    {
      ReadsOfFile();
      var tmp: seq<Student> := [];
      var i := 0;
      while i < |records|
        invariant i <= |records| && tmp == NonEmpty(records[..i])
      {
        assert records[..i + 1][..i] == records[..i];
        if records[i].id != 0 {
          tmp := tmp + [records[i]];
        }
        i := i + 1;
      }
      if tail != 0 {
        return ErrDbFile;
      }
      assert records[..i] == records;
      records := tmp;
      rc := NoError;
    }
  }
}
