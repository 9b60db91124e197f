/**
 * The request text `analyzeResume` sends to the language model
 * (src/App.jsx): a fixed instruction block naming the expected JSON shape,
 * then the résumé cut to its first 10000 characters, a job-description
 * heading, and the job description cut to its first 5000 characters.
 * Anything past the limits is dropped without notice.
 */
module Prompt {
  import opened Text

  const ResumeLimit: nat := 10000
  const JobLimit: nat := 5000

  /** The instructions, ending with the résumé heading. */
  const Instructions: string :=
    "ANALYSIS REQUEST:\n" +
    "You are a professional resume analyzer. Analyze this resume against the provided job description and return ONLY a JSON object with the following structure:\n" +
    "\n" +
    "{\n" +
    "  \"matchPercentage\": number (0-100),\n" +
    "  \"scoreBreakdown\": {\n" +
    "    \"skills\": number (0-100),\n" +
    "    \"experience\": number (0-100),\n" +
    "    \"education\": number (0-100),\n" +
    "    \"keywords\": number (0-100)\n" +
    "  },\n" +
    "  \"atsScore\": number (0-100),\n" +
    "  \"missingKeywords\": string[],\n" +
    "  \"sectionFeedback\": {\n" +
    "    \"skills\": string[],\n" +
    "    \"experience\": string[],\n" +
    "    \"education\": string[]\n" +
    "  },\n" +
    "  \"strengths\": string[],\n" +
    "  \"weaknesses\": string[],\n" +
    "  \"keyChanges\": string[],\n" +
    "  \"summary\": string\n" +
    "}\n" +
    "\n" +
    "IMPORTANT RULES:\n" +
    "1. Return ONLY the JSON object\n" +
    "2. Do not include any additional text, explanations, or markdown\n" +
    "3. Ensure all fields are included\n" +
    "4. Wrap the JSON in triple backticks (```json {...} ```)\n" +
    "\n" +
    "RESUME:\n"

  const JobHeading: string := "\n\nJOB DESCRIPTION:\n"

  /**
   * `head + excerpt + JobHeading + jobExcerpt`: the instruction block, exactly
   * the first min(|resume|, 10000) characters of the résumé, the heading, and
   * exactly the first min(|job|, 5000) characters of the job description;
   * nothing else. Stated for any instruction block, so that the layout is
   * proved without unfolding the long literal.
   */
  function Assemble(head: string, resume: string, job: string): (r: string)
    ensures |r| == |head| + Min(|resume|, ResumeLimit) + |JobHeading| + Min(|job|, JobLimit)
    ensures r[..|head|] == head
    ensures r[|head|..|head| + Min(|resume|, ResumeLimit)] == resume[..Min(|resume|, ResumeLimit)]
    ensures r[|head| + Min(|resume|, ResumeLimit)..|head| + Min(|resume|, ResumeLimit) + |JobHeading|] == JobHeading
    ensures r[|head| + Min(|resume|, ResumeLimit) + |JobHeading|..] == job[..Min(|job|, JobLimit)]
  {
    var excerpt := Take(resume, ResumeLimit);
    var jobExcerpt := Take(job, JobLimit);
    var r := head + excerpt + JobHeading + jobExcerpt;
    assert r[..|head|] == head;
    assert r[|head|..|head| + |excerpt|] == excerpt;
    assert r[|head| + |excerpt|..|head| + |excerpt| + |JobHeading|] == JobHeading;
    assert r[|head| + |excerpt| + |JobHeading|..] == jobExcerpt;
    r
  }

  /** The prompt built from the two inputs: `Assemble` with the instructions above. */
  function BuildPrompt(resume: string, job: string): string {
    Assemble(Instructions, resume, job)
  }

  /** Inputs that agree on their first 10000 and 5000 characters give the same prompt. */
  lemma {:induction false} PromptSeesOnlyExcerpts(resume1: string, job1: string, resume2: string, job2: string)
    requires resume1[..Min(|resume1|, ResumeLimit)] == resume2[..Min(|resume2|, ResumeLimit)]
    requires job1[..Min(|job1|, JobLimit)] == job2[..Min(|job2|, JobLimit)]
    ensures BuildPrompt(resume1, job1) == BuildPrompt(resume2, job2)
  {
    assert Take(resume1, ResumeLimit) == Take(resume2, ResumeLimit);
    assert Take(job1, JobLimit) == Take(job2, JobLimit);
  }

  /** A character appended past the résumé limit does not reach the prompt. */
  lemma ResumeTruncated(resume: string, job: string, c: char)
    requires |resume| >= ResumeLimit
    ensures BuildPrompt(resume + [c], job) == BuildPrompt(resume, job)
  {
    assert (resume + [c])[..ResumeLimit] == resume[..ResumeLimit];
    PromptSeesOnlyExcerpts(resume + [c], job, resume, job);
  }

  /** A character appended past the job-description limit does not reach the prompt. */
  lemma JobTruncated(resume: string, job: string, c: char)
    requires |job| >= JobLimit
    ensures BuildPrompt(resume, job + [c]) == BuildPrompt(resume, job)
  {
    assert (job + [c])[..JobLimit] == job[..JobLimit];
    PromptSeesOnlyExcerpts(resume, job + [c], resume, job);
  }

  /**
   * The excerpts can be read back from an assembled text, and so from a
   * prompt, once the résumé excerpt's length is known.
   */
  lemma AssembleRecoverable(head: string, resume1: string, job1: string, resume2: string, job2: string)
    requires Min(|resume1|, ResumeLimit) == Min(|resume2|, ResumeLimit)
    requires Assemble(head, resume1, job1) == Assemble(head, resume2, job2)
    ensures resume1[..Min(|resume1|, ResumeLimit)] == resume2[..Min(|resume2|, ResumeLimit)]
    ensures job1[..Min(|job1|, JobLimit)] == job2[..Min(|job2|, JobLimit)]
  {
  }
}
