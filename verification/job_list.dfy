/**
 * The job-listing window: which footer buttons a role sees, the "Apply with Resume" gate,
 * the add-job form, and deleting the selected job.
 *
 * The table model is the window's `rows` (getAllJobs, newest first); a selected row is a
 * model index, or -1 when nothing is selected.
 */
module JobList {
  import opened JavaText
  import opened Schema
  import opened Tables
  import opened Queries
  import opened Database
  import opened Dialogs

  // ================= footer buttons =================

  datatype FooterButtons = FooterButtons(addJob: bool, deleteJob: bool, exportCsv: bool, applyWithResume: bool)

  /** createFooterPanel: `"Admin".equals(currentUserRole)` decides every button; a missing role is no admin. */
  function Footer(role: Option<string>): (f: FooterButtons)
    ensures f.addJob == f.deleteJob == f.exportCsv
    ensures f.applyWithResume <==> !f.addJob
    ensures f.addJob <==> role == Some(AdminRole)
  {
    var admin := role == Some(AdminRole);
    FooterButtons(admin, admin, admin, !admin)
  }

  /** The admin sees the three admin buttons only; a customer, a signed-out window and a role spelt otherwise see "Apply with Resume" only. */
  lemma FooterForRoles()
    ensures Footer(Some(AdminRole)) == FooterButtons(true, true, true, false)
    ensures Footer(Some(CustomerRole)) == FooterButtons(false, false, false, true)
    ensures Footer(None) == FooterButtons(false, false, false, true)
    ensures Footer(Some("admin")) == FooterButtons(false, false, false, true)
  {
  }

  // ================= apply with resume =================

  /** applyWithResume's test on getResume: a resume whose trimmed full name and email are both non-empty. */
  predicate ResumeComplete(resume: Option<ResumeFields>) {
    resume.Some? && !IsBlank(resume.value.fullName) && !IsBlank(resume.value.email)
  }

  datatype ApplyStep = SelectJobFirst | OpenResumeDialog | OpenApplyDialog(jobTitle: string, company: string)

  /** "Apply with Resume" on the selected row, given the user's resume (getResume). */
  function ApplyWithResume(rows: seq<Job>, row: int, resume: Option<ResumeFields>): ApplyStep
    requires -1 <= row < |rows|
  {
    if row == -1 then SelectJobFirst
    else if !ResumeComplete(resume) then OpenResumeDialog
    else OpenApplyDialog(rows[row].title, rows[row].company)
  }

  /** The apply dialog opens only for a selected job and a complete resume, with that job's title and company. */
  lemma ApplyWithResumeOpens(rows: seq<Job>, row: int, resume: Option<ResumeFields>)
    requires -1 <= row < |rows|
    ensures ApplyWithResume(rows, row, resume).OpenApplyDialog? <==> row != -1 && ResumeComplete(resume)
    ensures ApplyWithResume(rows, row, resume).OpenApplyDialog? ==>
              ApplyWithResume(rows, row, resume) == OpenApplyDialog(rows[row].title, rows[row].company)
    ensures ApplyWithResume(rows, row, resume) == SelectJobFirst <==> row == -1
  {
  }

  /** A resume that passes this gate also shows as filled in the resume dialog. */
  lemma CompleteResumeIsFilled(resume: Option<ResumeFields>)
    ensures ResumeComplete(resume) ==> LoadedResumeFilled(resume)
  {
    if resume.Some? && resume.value.fullName == [] {
      assert Trim(resume.value.fullName) == [];
    }
    if resume.Some? && resume.value.email == [] {
      assert Trim(resume.value.email) == [];
    }
  }

  /** The converse fails: the resume dialog counts a full name of spaces as filled, this gate does not. */
  lemma FilledResumeMayBeIncomplete()
    ensures var resume := Some(ResumeFields(" ", "a@b.c", "", "", "", "", "", ""));
            LoadedResumeFilled(resume) && !ResumeComplete(resume)
  {
    assert Trim(" ") == [];
  }

  /** A resume the resume dialog saved passes the gate, so the next "Apply with Resume" opens the apply dialog. */
  lemma SavedResumePassesGate(form: ResumeFields)
    requires !IsBlank(form.fullName) && !IsBlank(form.email)
    ensures ResumeComplete(Some(TrimFields(form)))
  {
    SavedResumeFilled(form);
  }

  // ================= the add-job form =================

  /** The add-job form is complete when none of its five fields is blank. */
  predicate JobFormComplete(title: string, company: string, location: string, salary: string, description: string) {
    !IsBlank(title) && !IsBlank(company) && !IsBlank(location) && !IsBlank(salary) && !IsBlank(description)
  }

  // ================= deleting a job =================

  /** With ids ascending, deleting the id of row `m` removes exactly row `m`. */
  lemma WithoutJobAt(s: seq<Job>, m: int)
    requires Ascending(s, JobId) && 0 <= m < |s|
    ensures WithoutJob(s, s[m].id) == s[..m] + s[m + 1..]
  {
    forall i | 0 <= i < |s| && i != m
      ensures s[i].id != s[m].id
    {
      if i < m {
        assert JobId(s[i]) < JobId(s[m]);
      } else {
        assert JobId(s[m]) < JobId(s[i]);
      }
    }
    FilterRemoveAt(s, (j: Job) => j.id != s[m].id, m);
  }

  /**
   * In a window showing the current jobs, removing the selected row from the table model and
   * reloading getAllJobs after deleteJob give the same table.
   */
  lemma RemoveRowAgrees(jobs: seq<Job>, k: int)
    requires Ascending(jobs, JobId) && 0 <= k < |jobs|
    ensures AllJobs(WithoutJob(jobs, AllJobs(jobs)[k].id)) == AllJobs(jobs)[..k] + AllJobs(jobs)[k + 1..]
  {
    var m := |jobs| - 1 - k;
    assert AllJobs(jobs)[k] == jobs[m];
    WithoutJobAt(jobs, m);
    ReverseRemoveAt(jobs, m);
  }

  datatype AddJobResult = JobFieldsMissing | JobAdded(id: int)

  datatype JobDeleteResult = NoJobSelected | DeleteNotConfirmed | JobDeleted | JobNotFound

  class JobListFrame {
    /** The signed-in user and role the window was opened for. */
    const currentUser: string
    const currentUserRole: Option<string>
    /** The table model. */
    var rows: seq<Job>
    /** The add-job window's five fields. */
    var titleField: string
    var companyField: string
    var locationField: string
    var salaryField: string
    var descriptionField: string

    constructor(db: Store, currentUser: string, currentUserRole: Option<string>)
      requires db.Valid()
      ensures this.currentUser == currentUser && this.currentUserRole == currentUserRole
      ensures rows == AllJobs(db.jobs)
      ensures titleField == [] && companyField == [] && locationField == [] && salaryField == [] && descriptionField == []
    {
      this.currentUser := currentUser;
      this.currentUserRole := currentUserRole;
      var loaded := db.GetAllJobs();
      rows := loaded;
      titleField, companyField, locationField, salaryField, descriptionField := [], [], [], [], [];
    }

    /** The buttons of this window's footer. */
    function Buttons(): FooterButtons {
      Footer(currentUserRole)
    }

    /** "Apply with Resume" on the selected row: the step depends on the user's current resume. */
    method ApplyWithResumeStep(db: Store, row: int) returns (step: ApplyStep)
      requires -1 <= row < |rows|
      ensures step == ApplyWithResume(rows, row, FindResume(db.resumes, currentUser))
      ensures step.OpenApplyDialog? ==> ResumeComplete(FindResume(db.resumes, currentUser)) && step.jobTitle == rows[row].title
    {
      if row == -1 {
        return SelectJobFirst;
      }
      var resume := db.GetResume(currentUser);
      step := ApplyWithResume(rows, row, resume);
    }

    /**
     * The add-job window's "Add Job": every trimmed field is required; addJob receives the
     * trimmed values; on success the form is cleared and the table reloaded, the new job first.
     * The store always returns a positive id, so "Failed to add job." is never shown.
     */
    method AddJob(db: Store) returns (r: AddJobResult)
      requires db.Valid()
      modifies this`rows, this`titleField, this`companyField, this`locationField, this`salaryField,
               this`descriptionField, db`jobs, db`nextJobId, db`clock
      ensures db.Valid()
      ensures r.JobAdded? <==>
                JobFormComplete(old(titleField), old(companyField), old(locationField), old(salaryField), old(descriptionField))
      ensures !r.JobAdded? ==>
                db.jobs == old(db.jobs) && rows == old(rows) &&
                titleField == old(titleField) && companyField == old(companyField) && locationField == old(locationField) &&
                salaryField == old(salaryField) && descriptionField == old(descriptionField)
      ensures r.JobAdded? ==>
                r.id > 0 && r.id == old(db.nextJobId) &&
                db.jobs == old(db.jobs) + [Job(r.id, Trim(old(titleField)), Trim(old(companyField)), Trim(old(locationField)),
                                               Trim(old(salaryField)), Trim(old(descriptionField)), old(db.clock))]
      ensures r.JobAdded? ==>
                titleField == [] && companyField == [] && locationField == [] && salaryField == [] && descriptionField == [] &&
                rows == AllJobs(db.jobs) && rows[0].id == r.id
    {
      var title, company, location := Trim(titleField), Trim(companyField), Trim(locationField);
      var salary, description := Trim(salaryField), Trim(descriptionField);
      if title == [] || company == [] || location == [] || salary == [] || description == [] {
        return JobFieldsMissing;
      }
      var id := PostJob(db, title, company, location, salary, description);
      r := JobAdded(id);
    }

    /** addJob with the trimmed fields, then the form is cleared and the table reloaded. */
    method PostJob(db: Store, title: string, company: string, location: string, salary: string, description: string)
        returns (id: int)
      requires db.Valid()
      modifies this`rows, this`titleField, this`companyField, this`locationField, this`salaryField,
               this`descriptionField, db`jobs, db`nextJobId, db`clock
      ensures db.Valid()
      ensures id > 0 && id == old(db.nextJobId)
      ensures db.jobs == old(db.jobs) + [Job(id, title, company, location, salary, description, old(db.clock))]
      ensures titleField == [] && companyField == [] && locationField == [] && salaryField == [] && descriptionField == []
      ensures rows == AllJobs(db.jobs) && rows[0].id == id
    {
      id := db.AddJob(title, company, location, salary, description);
      titleField, companyField, locationField, salaryField, descriptionField := [], [], [], [], [];
      rows := AllJobs(db.jobs);
    }

    /**
     * "Delete Selected Job": a selected row and a confirmation are required; the row is
     * removed from the table only when deleteJob reports a deleted row, and the table is
     * then reloaded. In a window showing the current jobs the reload equals the removal.
     */
    method DeleteSelectedJob(db: Store, row: int, confirmed: bool) returns (r: JobDeleteResult)
      requires db.Valid() && -1 <= row < |rows|
      modifies this`rows, db`jobs
      ensures db.Valid()
      ensures row == -1 ==> r == NoJobSelected
      ensures row != -1 && !confirmed ==> r == DeleteNotConfirmed
      ensures r == NoJobSelected || r == DeleteNotConfirmed ==> db.jobs == old(db.jobs)
      ensures row != -1 && confirmed ==> db.jobs == WithoutJob(old(db.jobs), old(rows[row].id))
      ensures r == JobDeleted <==> row != -1 && confirmed && exists j :: j in old(db.jobs) && j.id == old(rows[row].id)
      ensures r == JobDeleted ==> rows == AllJobs(db.jobs)
      ensures r == JobDeleted && old(rows) == AllJobs(old(db.jobs)) ==> rows == old(rows[..row] + rows[row + 1..])
      ensures r != JobDeleted ==> rows == old(rows)
    {
      if row == -1 {
        return NoJobSelected;
      }
      if !confirmed {
        return DeleteNotConfirmed;
      }
      var id := rows[row].id;
      var deleted := db.DeleteJob(id);
      if deleted {
        if old(rows) == AllJobs(old(db.jobs)) {
          RemoveRowAgrees(old(db.jobs), row);
        }
        // tableModel.removeRow, then loadJobsFromDatabase replaces the whole table (RemoveRowAgrees: same rows)
        rows := rows[..row] + rows[row + 1..];
        rows := AllJobs(db.jobs);
        r := JobDeleted;
      } else {
        r := JobNotFound;
      }
    }
  }
}
